/**
 * The interface between the packet and the per-protocol decoders
 * (Ethernet, Ip, Tcp, Udp, Dhcp, Http, NoProtocol), which are not part of
 * this model. A decoder class is constructed from a context map, its
 * `decode()` answers whether the bytes made sense, and `getAttributes()`
 * gives the fields it produced. All three are folded into one oracle,
 * `Runtime.run`; PHP's `class_exists` becomes membership in
 * `Runtime.classes`.
 */
module Protocols {
  import opened Values

  /** What a decoder instance reports: `decode()`'s answer and `getAttributes()`. */
  datatype Verdict = Verdict(valid: bool, attributes: Context)

  /**
   * The decoder classes that exist (by fully qualified name) and the
   * behaviour of `new $cls($data, $encoding)` followed by `decode()`.
   */
  datatype Runtime = Runtime(classes: set<string>, run: (string, Context) -> Verdict)

  /** A decoded protocol object: its class, its validity flag, its attributes. */
  datatype Protocol = Protocol(cls: string, valid: bool, attributes: Context)

  /** The exceptions that abort decoding. */
  datatype Error =
    | ClassNotFound(name: string)
    | BufferUnderflow(requested: int, available: nat)

  datatype Result<T> = Ok(value: T) | Err(error: Error)

  const DefaultNamespace: string := "\\LibPcap\\Packet\\Protocols\\"

  /** The class `use LibPcap\Packet\Protocols\NoProtocol` names. */
  const NoProtocolClass: string := "\\LibPcap\\Packet\\Protocols\\NoProtocol"

  /** The name the decode loop falls back to when a level matched nothing. */
  const NoProtocolName: string := "NoProtocol"

  /** `instanceof NoProtocol` (subclasses of NoProtocol are not modelled). */
  predicate IsNoProtocol(p: Protocol): (b: bool)
    ensures b <==> p.cls == DefaultNamespace + NoProtocolName
  {
    p.cls == NoProtocolClass
  }

  /**
   * Class lookup of `decodeProtocol`: the name under the default namespace
   * first, then the name as given.
   */
  function ResolveClass(classes: set<string>, ns: string, name: string): (r: Option<string>)
    ensures r.Some? <==> (ns + name in classes || name in classes)
    ensures r.Some? ==> r.value in classes
    ensures ns + name in classes ==> r == Some(ns + name)
    ensures ns + name !in classes && name in classes ==> r == Some(name)
  {
    if ns + name in classes then Some(ns + name)
    else if name in classes then Some(name)
    else None
  }

  predicate Resolvable(rt: Runtime, ns: string, name: string) {
    ResolveClass(rt.classes, ns, name).Some?
  }

  /** A decoder object of class `cls` constructed on `ctx` and decoded. */
  function Instantiate(rt: Runtime, cls: string, ctx: Context): (p: Protocol)
    ensures p.cls == cls
    ensures p.valid == rt.run(cls, ctx).valid && p.attributes == rt.run(cls, ctx).attributes
  {
    Protocol(cls, rt.run(cls, ctx).valid, rt.run(cls, ctx).attributes)
  }

  /**
   * `decodeProtocol($protocolClass, $data)`: resolve the class, construct
   * it on the context, run `decode()` and mark it valid exactly when that
   * returned true. An unresolvable name raises.
   */
  function DecodeProtocol(rt: Runtime, ns: string, name: string, ctx: Context): (r: Result<Protocol>)
    ensures r.Err? <==> !Resolvable(rt, ns, name)
    ensures r.Err? ==> r.error == ClassNotFound(name)
    ensures r.Ok? ==> r.value.cls in rt.classes
    ensures r.Ok? ==> r.value.cls == (if ns + name in rt.classes then ns + name else name)
    ensures r.Ok? ==> r.value.valid == rt.run(r.value.cls, ctx).valid
    ensures r.Ok? ==> r.value.attributes == rt.run(r.value.cls, ctx).attributes
  {
    match ResolveClass(rt.classes, ns, name)
    case None => Err(ClassNotFound(name))
    case Some(cls) => Ok(Instantiate(rt, cls, ctx))
  }
}
