/**
 * The `Packet` object: one pcap record read from a buffer, its parsed head,
 * the mutable protocol stack descriptor, the decoded per-level results and
 * the free-form attribute bag.
 */
module PacketModel {
  import opened Bytes
  import opened Values
  import opened Protocols
  import opened RecordHeaders
  import opened Stack
  import opened Orchestrator
  import opened Frames
  import opened Attributes

  /**
   * The loop of `removeProtocol` over one array level: walks the entries in
   * order and drops each one equal to `x`.
   */
  method DeleteAll(names: seq<string>, x: string) returns (kept: seq<string>)
    ensures kept == Without(names, x)
  {
    kept := [];
    for i := 0 to |names|
      invariant kept == Without(names[..i], x)
    {
      WithoutPrefix(names, i, x);
      if names[i] != x {
        kept := kept + [names[i]];
      }
    }
    assert names[..|names|] == names;
  }

  /**
   * The outer loop of `decode` over `$_protocols` in iteration order: each
   * level's context becomes the head of the next, and the first exception
   * stops the loop.
   */
  method DecodeStack(rt: Runtime, ns: string, keys: seq<int>, levels: map<int, Level>,
                     head: Context, slots: map<int, Protocol>) returns (s: Step)
    requires forall k :: k in keys ==> k in levels
    ensures s == DecodeLevels(rt, ns, keys, levels, head, slots)
  {
    s := Step(head, slots, None);
    var i := 0;
    while i < |keys|
      invariant 0 <= i <= |keys|
      invariant s.error == None
      invariant DecodeLevels(rt, ns, keys[i..], levels, s.head, s.slots)
             == DecodeLevels(rt, ns, keys, levels, head, slots)
    {
      assert keys[i..][0] == keys[i] && keys[i..][1..] == keys[i + 1..];
      var next := DecodeOneLevel(rt, ns, keys[i], levels[keys[i]], s.head, s.slots);
      if next.error.Some? {
        return next;
      }
      s := next;
      i := i + 1;
    }
  }

  /**
   * One pass of the outer loop: the candidates of the level run in order,
   * each on the context the previous one left, and a valid one overwrites
   * the slot; the `NoProtocol` fallback fills a slot still unset.
   */
  method DecodeOneLevel(rt: Runtime, ns: string, key: int, level: Level,
                        head: Context, slots: map<int, Protocol>) returns (s: Step)
    ensures s == DecodeLevel(rt, ns, key, level, head, slots)
  {
    var names := Candidates(level);
    var ctx := LevelInput(level, head);
    var current := slots;
    var j := 0;
    while j < |names|
      invariant 0 <= j <= |names|
      invariant RunCandidates(rt, ns, key, names[j..], ctx, current)
             == RunCandidates(rt, ns, key, names, LevelInput(level, head), slots)
    {
      assert names[j..][0] == names[j] && names[j..][1..] == names[j + 1..];
      var r := DecodeProtocol(rt, ns, names[j], ctx);
      if r.Err? {
        return Step(head, current, Some(r.error));
      }
      ctx := r.value.attributes;
      if r.value.valid {
        current := current[key := r.value];
      }
      j := j + 1;
    }
    assert names[j..] == [];
    if key !in current {
      var r := DecodeProtocol(rt, ns, NoProtocolName, map[]);
      if r.Err? {
        return Step(head, current, Some(r.error));
      }
      current := current[key := r.value];
    }
    return Step(ctx, current, None);
  }

  class Packet {
    /** `$_attributes`: the bag `fill` merges into. */
    var attributes: Context
    /** The bytes of the buffer not yet consumed. */
    var buffer: seq<byte>
    const encoding: Endian
    /** The decoder classes that exist and how they decode. */
    const runtime: Runtime
    /** `$isMalphormed`. */
    var isMalformed: bool
    /** `$headData`: the raw 16-byte record header. */
    var headData: seq<byte>
    /** `$head`: the parsed head array, or `false`. */
    var head: Head
    /** `$protocols`: the decoded protocol of each level key, when set. */
    var slots: map<int, Protocol>
    /** `$_protocols`: its keys in iteration order and its levels. */
    var order: seq<int>
    var levels: map<int, Level>
    /** `$defaultProtocolNamespace`. */
    var defaultNamespace: string

    predicate Valid()
      reads this
    {
      WellFormed(order, levels)
    }

    /**
     * Reads the 16-byte record header off the buffer and sets the head and
     * the malformed flag from it. A buffer shorter than 16 bytes makes the
     * buffer raise, which callers never do here.
     */
    constructor (input: seq<byte>, encoding: Endian, runtime: Runtime, snaplen: int)
      requires |input| >= HeaderSize
      ensures Valid()
      ensures this.encoding == encoding && this.runtime == runtime
      ensures headData == input[..HeaderSize] && buffer == input[HeaderSize..]
      ensures var h := ParseRecordHeader(encoding, input[..HeaderSize]);
              && (isMalformed <==> h.inclLen == 0)
              && head == (if h.inclLen == 0 then NoHead else Fields(HeaderFields(h)))
      ensures order == DefaultOrder && levels == DefaultLevels
      ensures slots == map[] && attributes == map[] && defaultNamespace == DefaultNamespace
    {
      this.encoding := encoding;
      this.runtime := runtime;
      headData := input[..HeaderSize];
      buffer := input[HeaderSize..];
      attributes := map[];
      isMalformed := true;
      head := NoHead;
      slots := map[];
      order, levels := DefaultOrder, DefaultLevels;
      defaultNamespace := DefaultNamespace;
      new;
      DefaultWellFormed();
      head := DecodeHeadFromPacket(headData, snaplen);
    }

    /**
     * `decodeHeadFromPacket`: the oversize test sets the flag, but every
     * record with a non-zero captured length ends with the flag cleared, so
     * only an empty record is malformed (and gets `false` as its head).
     */
    method DecodeHeadFromPacket(data: seq<byte>, snaplen: int) returns (h: Head)
      requires |data| == HeaderSize
      modifies this`isMalformed
      ensures var rh := ParseRecordHeader(encoding, data);
              && (isMalformed <==> rh.inclLen == 0)
              && h == (if rh.inclLen == 0 then NoHead else Fields(HeaderFields(rh)))
    {
      var rh := ParseRecordHeader(encoding, data);
      if rh.inclLen > rh.origLen || rh.inclLen > snaplen {
        isMalformed := true;
      }
      if rh.inclLen == 0 {
        isMalformed := true;
        return NoHead;
      }
      isMalformed := false;
      return Fields(HeaderFields(rh));
    }

    /**
     * `addProtocol`: appends the name to the level only when no class of
     * that name exists in the default namespace; appending to a level that
     * is a plain string is a fatal error, so callers never do it.
     */
    method AddProtocol(classPath: string, level: int)
      requires Valid()
      requires defaultNamespace + classPath !in runtime.classes && level in levels ==>
                 levels[level].Alt?
      modifies this`order, this`levels
      ensures Valid()
      ensures defaultNamespace + classPath in runtime.classes ==>
                order == old(order) && levels == old(levels)
      ensures defaultNamespace + classPath !in runtime.classes ==>
                (order, levels) == AddCandidate(old(order), old(levels), level, classPath)
    {
      if defaultNamespace + classPath !in runtime.classes {
        if level in levels {
          levels := levels[level := Alt(levels[level].names + [classPath])];
        } else {
          order := order + [level];
          levels := levels[level := Alt([classPath])];
        }
      }
    }

    /**
     * `removeProtocol`: unsets every entry of an array level equal to the
     * name (the survivors keep their order); a plain-string or missing
     * level is left alone.
     */
    method RemoveProtocol(className: string, level: int)
      requires Valid()
      modifies this`levels
      ensures Valid()
      ensures levels == RemoveCandidate(old(levels), level, className)
    {
      if level !in levels || levels[level].Single? {
        return;
      }
      var kept := DeleteAll(levels[level].names, className);
      levels := levels[level := Alt(kept)];
    }

    function IsCorrect(): (r: bool)
      reads this
      ensures r <==> !isMalformed
    {
      !isMalformed
    }

    /** `fill`: merges the data into the attribute bag (no validation). */
    method Fill(data: Context)
      modifies this`attributes
      ensures attributes == Merge(old(attributes), data)
    {
      FillDirty(data);
    }

    method FillDirty(data: Context)
      modifies this`attributes
      ensures attributes == Merge(old(attributes), data)
    {
      attributes := Merge(attributes, data);
    }

    function GetHead(): (r: Head)
      reads this
      ensures r == head
    {
      head
    }

    method SetHead(h: Head)
      modifies this`head
      ensures head == h
    {
      head := h;
    }

    /** `getEthernet` reads slot 1. */
    function GetEthernet(): (r: Option<Protocol>)
      reads this
      ensures r.Some? <==> 1 in slots
      ensures r.Some? ==> r.value == slots[1]
    {
      SlotAt(slots, 1)
    }

    /** `getIp` reads slot 2. */
    function GetIp(): (r: Option<Protocol>)
      reads this
      ensures r.Some? <==> 2 in slots
      ensures r.Some? ==> r.value == slots[2]
    {
      SlotAt(slots, 2)
    }

    /** `getTransport` reads slot 3. */
    function GetTransport(): (r: Option<Protocol>)
      reads this
      ensures r.Some? <==> 3 in slots
      ensures r.Some? ==> r.value == slots[3]
    {
      SlotAt(slots, 3)
    }

    /** `getProtocol`: slot 4 unless it is unset or a `NoProtocol`, else slot 3. */
    function GetProtocol(): (r: Option<Protocol>)
      reads this
      ensures 4 in slots && !IsNoProtocol(slots[4]) ==> r == Some(slots[4])
      ensures (4 !in slots || IsNoProtocol(slots[4])) ==> r == SlotAt(slots, 3)
    {
      ProtocolOf(slots)
    }

    function GetEncoding(): (r: Endian)
      reads this
      ensures r == encoding
    {
      encoding
    }

    /**
     * `decode`: nothing for a malformed record; otherwise the next
     * `incl_len` bytes become the head's "data", and every level is decoded
     * in turn, as `DecodeLevels` describes. An unresolvable class or a short
     * buffer raises, reported here as the returned error, with the head and
     * the slots as far as decoding got.
     */
    method Decode() returns (err: Option<Error>)
      requires Valid()
      modifies this`head, this`slots, this`buffer
      ensures old(isMalformed) ==>
                err == None && head == old(head) && slots == old(slots) && buffer == old(buffer)
      ensures !old(isMalformed) ==>
                match ReadPayload(old(head), old(buffer))
                case Err(e) =>
                  err == Some(e) && head == old(head) && slots == old(slots) && buffer == old(buffer)
                case Ok(start) =>
                  var s := DecodeLevels(runtime, defaultNamespace, order, levels, start.0, old(slots));
                  buffer == start.1 && head == Fields(s.head) && slots == s.slots && err == s.error
    {
      if isMalformed {
        return None;
      }
      var start := ReadPayload(head, buffer);
      if start.Err? {
        return Some(start.error);
      }
      buffer := start.value.1;
      var s := DecodeStack(runtime, defaultNamespace, order, levels, start.value.0, slots);
      head := Fields(s.head);
      slots := s.slots;
      return s.error;
    }

    /**
     * `decodeIpFrame`: splits an IPv4 header and, as a side effect, clears
     * the malformed flag.
     */
    method DecodeIpFrame(data: seq<byte>) returns (x: IpHeader)
      requires |data| >= IpHeaderSize
      modifies this`isMalformed
      ensures x == DecodeIpFields(data) && !isMalformed
    {
      x := DecodeIpFields(data);
      isMalformed := false;
    }
  }
}
