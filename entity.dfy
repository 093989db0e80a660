/** The two message values that travel over a connection, and their classes. */
module Entity {

  /** `RPCRequest` (interface and method name) and `RPCResponse` (one message). */
  datatype Msg =
    | Request(interfaceName: string, methodName: string)
    | Response(message: string)

  /** The runtime classes an encoder can be configured with. */
  datatype Kind = RequestClass | ResponseClass

  /** `genericClass.isInstance(o)`: the value's runtime class is the configured one. */
  predicate IsInstance(genericClass: Kind, o: Msg) {
    match o
    case Request(_, _) => genericClass == RequestClass
    case Response(_) => genericClass == ResponseClass
  }

  /** Every value is an instance of exactly one of the classes. */
  lemma InstanceOfExactlyOneClass(o: Msg)
    ensures exists k :: IsInstance(k, o)
    ensures forall k, k' :: IsInstance(k, o) && IsInstance(k', o) ==> k == k'
  {
    assert IsInstance(if o.Request? then RequestClass else ResponseClass, o);
  }
}
