/**
 * The decode orchestrator as functions: what `Packet::decode` does to the
 * head array and to the per-level result slots, level by level and
 * candidate by candidate, including the exceptions that abort it half way.
 * The class method `Packet.Decode` is proved equal to these functions; the
 * lemmas here say what the functions mean.
 */
module Orchestrator {
  import opened Bytes
  import opened Values
  import opened Protocols
  import opened Stack
  import opened RecordHeaders

  /**
   * The state decoding leaves behind: the head array (as last stored with
   * `setHead`), the result slots `$this->protocols`, and the exception
   * that stopped it, if any.
   */
  datatype Step = Step(head: Context, slots: map<int, Protocol>, error: Option<Error>)

  predicate AllResolvable(rt: Runtime, ns: string, names: seq<string>) {
    forall n :: n in names ==> Resolvable(rt, ns, n)
  }

  /**
   * The inner loop over one level's candidates: each is decoded on the
   * running context, the context becomes its attributes whether or not it
   * was valid, and a valid one overwrites the level's slot.
   */
  function RunCandidates(rt: Runtime, ns: string, key: int, names: seq<string>,
                         ctx: Context, slots: map<int, Protocol>): (s: Step)
    ensures slots.Keys <= s.slots.Keys <= slots.Keys + {key}
    ensures forall k :: k in slots && k != key ==> s.slots[k] == slots[k]
    ensures key in s.slots && (key !in slots || s.slots[key] != slots[key]) ==> s.slots[key].valid
    ensures s.error.None? <==> AllResolvable(rt, ns, names)
    ensures s.error.Some? ==>
              s.error.value.ClassNotFound? && s.error.value.name in names &&
              !Resolvable(rt, ns, s.error.value.name)
    decreases |names|
  {
    if names == [] then Step(ctx, slots, None)
    else
      match DecodeProtocol(rt, ns, names[0], ctx)
      case Err(e) => Step(ctx, slots, Some(e))
      case Ok(p) =>
        var s := RunCandidates(rt, ns, key, names[1..], p.attributes,
                               if p.valid then slots[key := p] else slots);
        assert forall n :: n in names[1..] ==> n in names;
        assert AllResolvable(rt, ns, names[1..]) ==> AllResolvable(rt, ns, names);
        s
  }

  /** A level named by a plain string is decoded on an empty array, an alternation on the head. */
  function LevelInput(level: Level, head: Context): (r: Context)
    ensures level.Single? ==> r == map[]
    ensures level.Alt? ==> r == head
  {
    if level.Single? then map[] else head
  }

  /**
   * One pass of the outer loop: run the candidates, fall back to a
   * `NoProtocol` object when the slot is still unset, and store the
   * candidates' last context as the new head. An exception leaves the head
   * as it was.
   */
  function DecodeLevel(rt: Runtime, ns: string, key: int, level: Level,
                       head: Context, slots: map<int, Protocol>): (s: Step)
    ensures slots.Keys <= s.slots.Keys <= slots.Keys + {key}
    ensures forall k :: k in slots && k != key ==> s.slots[k] == slots[k]
    ensures s.error.None? ==> key in s.slots
    ensures s.error.Some? ==>
              s.head == head && s.error.value.ClassNotFound? &&
              s.error.value.name in Candidates(level) + [NoProtocolName] &&
              !Resolvable(rt, ns, s.error.value.name)
    ensures AllResolvable(rt, ns, Candidates(level)) && Resolvable(rt, ns, NoProtocolName) ==>
              s.error.None?
    ensures !AllResolvable(rt, ns, Candidates(level)) ==> s.error.Some?
    ensures AllResolvable(rt, ns, Candidates(level)) ==>
              (s.error.Some? <==>
                 key !in RunCandidates(rt, ns, key, Candidates(level), LevelInput(level, head), slots).slots
                 && !Resolvable(rt, ns, NoProtocolName))
  {
    var c := RunCandidates(rt, ns, key, Candidates(level), LevelInput(level, head), slots);
    if c.error.Some? then Step(head, c.slots, c.error)
    else if key in c.slots then c
    else
      match DecodeProtocol(rt, ns, NoProtocolName, map[])
      case Err(e) => Step(head, c.slots, Some(e))
      case Ok(p) => Step(c.head, c.slots[key := p], None)
  }

  /**
   * The outer loop over the levels in iteration order, threading the head
   * from one level to the next and stopping at the first exception.
   */
  function DecodeLevels(rt: Runtime, ns: string, keys: seq<int>, levels: map<int, Level>,
                        head: Context, slots: map<int, Protocol>): (s: Step)
    requires forall k :: k in keys ==> k in levels
    ensures slots.Keys <= s.slots.Keys
    ensures forall k :: k in s.slots ==> k in slots || k in keys
    ensures forall k :: k in slots && k !in keys ==> s.slots[k] == slots[k]
    ensures s.error.None? ==> forall k :: k in keys ==> k in s.slots
    ensures s.error.Some? ==>
              s.error.value.ClassNotFound? && !Resolvable(rt, ns, s.error.value.name)
    ensures s.error.Some? ==>
              s.error.value.name == NoProtocolName ||
              exists k :: k in keys && s.error.value.name in Candidates(levels[k])
    decreases |keys|
  {
    if keys == [] then Step(head, slots, None)
    else
      var s := DecodeLevel(rt, ns, keys[0], levels[keys[0]], head, slots);
      if s.error.Some? then s
      else DecodeLevels(rt, ns, keys[1..], levels, s.head, s.slots)
  }

  /** Every level and the fallback resolve, so decoding raises nothing. */
  lemma {:induction false} ResolvableStackDecodes(rt: Runtime, ns: string, keys: seq<int>,
                                                  levels: map<int, Level>,
                                                  head: Context, slots: map<int, Protocol>)
    requires forall k :: k in keys ==> k in levels
    requires forall k :: k in keys ==> AllResolvable(rt, ns, Candidates(levels[k]))
    requires Resolvable(rt, ns, NoProtocolName)
    ensures DecodeLevels(rt, ns, keys, levels, head, slots).error.None?
    decreases |keys|
  {
    if keys != [] {
      var s := DecodeLevel(rt, ns, keys[0], levels[keys[0]], head, slots);
      assert forall k :: k in keys[1..] ==> k in keys;
      ResolvableStackDecodes(rt, ns, keys[1..], levels, s.head, s.slots);
    }
  }

  /**
   * Nothing in the loop catches the exception: a level with a candidate
   * that does not resolve makes the whole decode raise, whether that level
   * is reached or an earlier one raises first.
   */
  lemma {:induction false} UnresolvableLevelAborts(rt: Runtime, ns: string, keys: seq<int>,
                                                   levels: map<int, Level>, head: Context,
                                                   slots: map<int, Protocol>, k: int)
    requires forall k :: k in keys ==> k in levels
    requires k in keys && !AllResolvable(rt, ns, Candidates(levels[k]))
    ensures DecodeLevels(rt, ns, keys, levels, head, slots).error.Some?
    decreases |keys|
  {
    var s := DecodeLevel(rt, ns, keys[0], levels[keys[0]], head, slots);
    if s.error.None? && keys[0] != k {
      assert k in keys[1..];
      assert forall k :: k in keys[1..] ==> k in keys;
      UnresolvableLevelAborts(rt, ns, keys[1..], levels, s.head, s.slots, k);
    }
  }

  // ---------------------------------------------------------------------
  // A reference description of one level: the chain of decoder objects.
  // ---------------------------------------------------------------------

  /** The class `decodeProtocol` instantiates for a resolvable name. */
  function ClassOf(rt: Runtime, ns: string, name: string): string
    requires Resolvable(rt, ns, name)
  {
    ResolveClass(rt.classes, ns, name).value
  }

  /**
   * The decoder objects a level creates, in declared order: the first on
   * the level's input, each later one on its predecessor's attributes.
   */
  function Chain(rt: Runtime, ns: string, names: seq<string>, ctx: Context): (ps: seq<Protocol>)
    requires AllResolvable(rt, ns, names)
    ensures |ps| == |names|
    decreases |names|
  {
    if names == [] then []
    else
      var p := Instantiate(rt, ClassOf(rt, ns, names[0]), ctx);
      assert forall n :: n in names[1..] ==> n in names;
      [p] + Chain(rt, ns, names[1..], p.attributes)
  }

  /** The context the `i`-th candidate of a chain started on `ctx` receives. */
  function ChainInput(ps: seq<Protocol>, ctx: Context, i: nat): Context
    requires i <= |ps|
  {
    if i == 0 then ctx else ps[i - 1].attributes
  }

  /** The context a chain leaves behind: its last decoder's attributes. */
  function ChainOutput(ps: seq<Protocol>, ctx: Context): Context {
    ChainInput(ps, ctx, |ps|)
  }

  /**
   * Candidates are decoded in declared order and each receives the
   * previous candidate's attributes, whether that candidate was valid or not.
   */
  lemma {:induction false} ChainThreads(rt: Runtime, ns: string, names: seq<string>,
                                        ctx: Context, i: nat)
    requires AllResolvable(rt, ns, names)
    requires i < |names|
    ensures var ps := Chain(rt, ns, names, ctx);
            ps[i] == Instantiate(rt, ClassOf(rt, ns, names[i]), ChainInput(ps, ctx, i))
    decreases i
  {
    var ps := Chain(rt, ns, names, ctx);
    if i > 0 {
      assert forall n :: n in names[1..] ==> n in names;
      ChainThreads(rt, ns, names[1..], ps[0].attributes, i - 1);
      assert Chain(rt, ns, names[1..], ps[0].attributes) == ps[1..];
    }
  }

  /** The index of the last valid decoder, or -1 when none is valid. */
  function LastValidIndex(ps: seq<Protocol>): (j: int)
    ensures -1 <= j < |ps|
    ensures j >= 0 ==> ps[j].valid
    ensures forall k :: j < k < |ps| ==> !ps[k].valid
    decreases |ps|
  {
    if ps == [] then -1
    else
      var j := LastValidIndex(ps[1..]);
      assert forall k :: 0 < k < |ps| ==> ps[k] == ps[1..][k - 1];
      if j >= 0 then j + 1 else if ps[0].valid then 0 else -1
  }

  /**
   * Running an alternation: no `break`, so the slot ends holding the last
   * candidate that reported valid (or is left as it was), and the context
   * ends as the last candidate's attributes.
   */
  lemma {:induction false} CandidatesSelectLastValid(rt: Runtime, ns: string, key: int,
                                                     names: seq<string>, ctx: Context,
                                                     slots: map<int, Protocol>)
    requires AllResolvable(rt, ns, names)
    ensures var ps := Chain(rt, ns, names, ctx);
            var j := LastValidIndex(ps);
            RunCandidates(rt, ns, key, names, ctx, slots)
              == Step(ChainOutput(ps, ctx), if j >= 0 then slots[key := ps[j]] else slots, None)
    decreases |names|
  {
    if names != [] {
      var ps := Chain(rt, ns, names, ctx);
      var p := ps[0];
      var slots' := if p.valid then slots[key := p] else slots;
      assert forall n :: n in names[1..] ==> n in names;
      var rest := Chain(rt, ns, names[1..], p.attributes);
      assert rest == ps[1..];
      assert DecodeProtocol(rt, ns, names[0], ctx) == Ok(p);
      var r := RunCandidates(rt, ns, key, names[1..], p.attributes, slots');
      assert RunCandidates(rt, ns, key, names, ctx, slots) == r;
      CandidatesSelectLastValid(rt, ns, key, names[1..], p.attributes, slots');
      RestOfChain(ps, ctx, slots, key);
    }
  }

  /** How the outcome of a chain follows from the outcome of its tail. */
  lemma RestOfChain(ps: seq<Protocol>, ctx: Context, slots: map<int, Protocol>, key: int)
    requires ps != []
    ensures ChainOutput(ps[1..], ps[0].attributes) == ChainOutput(ps, ctx)
    ensures var slots' := if ps[0].valid then slots[key := ps[0]] else slots;
            var j', j := LastValidIndex(ps[1..]), LastValidIndex(ps);
            (if j' >= 0 then slots'[key := ps[1..][j']] else slots')
              == (if j >= 0 then slots[key := ps[j]] else slots)
  {
    if |ps| > 1 { assert ps[1..][|ps| - 2] == ps[|ps| - 1]; }
    var j' := LastValidIndex(ps[1..]);
    if j' >= 0 {
      assert ps[1..][j'] == ps[j' + 1];
    }
  }

  /** The `NoProtocol` object the fallback creates (on an empty array). */
  function Fallback(rt: Runtime, ns: string): (p: Protocol)
    requires Resolvable(rt, ns, NoProtocolName)
    ensures p.cls in rt.classes
    ensures p.cls == ResolveClass(rt.classes, ns, NoProtocolName).value
    ensures p.valid == rt.run(p.cls, map[]).valid
    ensures p.attributes == rt.run(p.cls, map[]).attributes
    ensures ns == DefaultNamespace && ns + NoProtocolName in rt.classes ==> IsNoProtocol(p)
  {
    Instantiate(rt, ClassOf(rt, ns, NoProtocolName), map[])
  }

  /**
   * One level in full: the slot holds the last valid candidate, else an
   * earlier decode's slot, else the `NoProtocol` fallback; the head becomes
   * the last candidate's attributes, valid or not, and the fallback does not
   * touch it.
   */
  lemma LevelOutcome(rt: Runtime, ns: string, key: int, level: Level,
                     head: Context, slots: map<int, Protocol>)
    requires AllResolvable(rt, ns, Candidates(level))
    requires Resolvable(rt, ns, NoProtocolName)
    ensures var input := LevelInput(level, head);
            var ps := Chain(rt, ns, Candidates(level), input);
            var j := LastValidIndex(ps);
            DecodeLevel(rt, ns, key, level, head, slots)
              == Step(ChainOutput(ps, input),
                      slots[key := if j >= 0 then ps[j]
                                   else if key in slots then slots[key]
                                   else Fallback(rt, ns)],
                      None)
  {
    var input := LevelInput(level, head);
    CandidatesSelectLastValid(rt, ns, key, Candidates(level), input, slots);
    var ps := Chain(rt, ns, Candidates(level), input);
    var j := LastValidIndex(ps);
    if j < 0 && key in slots {
      assert slots[key := slots[key]] == slots;
    }
  }

  // ---------------------------------------------------------------------
  // The prelude of decode and the accessors.
  // ---------------------------------------------------------------------

  /** `$head` as an array: PHP turns `false` into an empty array on write. */
  function HeadArray(h: Head): (r: Context)
    ensures h.Fields? ==> r == h.fields
    ensures h.NoHead? ==> r == map[]
  {
    if h.Fields? then h.fields else map[]
  }

  /** `$head['incl_len']`; a missing entry reads as null, which asks for 0 bytes. */
  function InclLen(m: Context): (n: int)
    ensures "incl_len" in m && m["incl_len"].Num? ==> n == m["incl_len"].n
    ensures !("incl_len" in m && m["incl_len"].Num?) ==> n == 0
  {
    if "incl_len" in m && m["incl_len"].Num? then m["incl_len"].n else 0
  }

  /** The payload length `decode` reads is the captured length of the record header. */
  lemma HeaderInclLen(h: RecordHeader)
    ensures InclLen(HeadArray(Fields(HeaderFields(h)))) == h.inclLen
  {
  }

  /**
   * `$head["data"] = $buffer->get($head['incl_len'])`: the next `incl_len`
   * bytes of the buffer become the head's "data" entry; a buffer holding
   * fewer bytes raises an underflow.
   */
  function ReadPayload(head: Head, buffer: seq<byte>): (r: Result<(Context, seq<byte>)>)
    ensures var m, n := HeadArray(head), InclLen(HeadArray(head));
            && (r.Ok? <==> 0 <= n <= |buffer|)
            && (r.Err? ==> r.error == BufferUnderflow(n, |buffer|))
            && (r.Ok? ==>
                  && r.value.0.Keys == m.Keys + {"data"}
                  && (forall k :: k in m && k != "data" ==> r.value.0[k] == m[k])
                  && r.value.0["data"].Raw?
                  && |r.value.0["data"].bytes| == n
                  && r.value.0["data"].bytes + r.value.1 == buffer)
  {
    var m, n := HeadArray(head), InclLen(HeadArray(head));
    if 0 <= n <= |buffer| then
      assert buffer[..n] + buffer[n..] == buffer;
      Ok((m["data" := Raw(buffer[..n])], buffer[n..]))
    else Err(BufferUnderflow(n, |buffer|))
  }

  /** Reading an unset slot yields null. */
  function SlotAt(slots: map<int, Protocol>, k: int): (r: Option<Protocol>)
    ensures r.Some? <==> k in slots
    ensures r.Some? ==> r.value == slots[k]
  {
    if k in slots then Some(slots[k]) else None
  }

  /**
   * `getProtocol`: slot 4 when it is set and not a `NoProtocol`, otherwise
   * slot 3.
   */
  function ProtocolOf(slots: map<int, Protocol>): (r: Option<Protocol>)
    ensures 4 in slots && !IsNoProtocol(slots[4]) ==> r == Some(slots[4])
    ensures (4 !in slots || IsNoProtocol(slots[4])) ==> r == SlotAt(slots, 3)
  {
    if 4 in slots && !IsNoProtocol(slots[4]) then Some(slots[4]) else SlotAt(slots, 3)
  }

  /**
   * On a fresh packet whose stack has the keys 0..3 (the default stack
   * does), a decode that raises nothing fills exactly the slots 0..3; the
   * getters, which read 1..4, therefore see the second level through
   * `getEthernet`, the third through `getIp`, the fourth through
   * `getTransport`, and `getProtocol` always falls back to slot 3.
   */
  lemma FourLevelSlots(rt: Runtime, ns: string, keys: seq<int>, levels: map<int, Level>,
                       head: Context)
    requires forall k :: k in keys ==> k in levels
    requires forall k :: k in keys <==> 0 <= k < 4
    requires DecodeLevels(rt, ns, keys, levels, head, map[]).error.None?
    ensures var s := DecodeLevels(rt, ns, keys, levels, head, map[]);
            && s.slots.Keys == {0, 1, 2, 3}
            && SlotAt(s.slots, 4) == None
            && ProtocolOf(s.slots) == Some(s.slots[3])
  {
    var s := DecodeLevels(rt, ns, keys, levels, head, map[]);
    FreshDecodeFillsKeys(rt, ns, keys, levels, head);
    var m := s.slots;
    assert forall k :: k in m <==> 0 <= k < 4;
    KeysZeroToThree(m);
  }

  lemma KeysZeroToThree(m: map<int, Protocol>)
    requires forall k :: k in m <==> 0 <= k < 4
    ensures m.Keys == {0, 1, 2, 3}
  {
    forall k ensures k in m.Keys <==> k in {0, 1, 2, 3} {
      assert k in {0, 1, 2, 3} <==> 0 <= k < 4;
    }
  }

  /** On empty slots, a decode that raises nothing sets exactly the levels' keys. */
  lemma FreshDecodeFillsKeys(rt: Runtime, ns: string, keys: seq<int>, levels: map<int, Level>,
                             head: Context)
    requires forall k :: k in keys ==> k in levels
    requires DecodeLevels(rt, ns, keys, levels, head, map[]).error.None?
    ensures forall k :: k in DecodeLevels(rt, ns, keys, levels, head, map[]).slots <==> k in keys
  {
  }

  /** A plain-string level decodes on an empty array, so the head it is given does not matter. */
  lemma SingleLevelIgnoresHead(rt: Runtime, ns: string, key: int, name: string,
                               h1: Context, h2: Context, slots: map<int, Protocol>)
    requires Resolvable(rt, ns, name)
    requires Resolvable(rt, ns, NoProtocolName)
    ensures DecodeLevel(rt, ns, key, Single(name), h1, slots)
         == DecodeLevel(rt, ns, key, Single(name), h2, slots)
  {
    assert AllResolvable(rt, ns, Candidates(Single(name)));
  }

  /**
   * Plain-string levels receive an empty array and the default stack starts
   * with one, so when every class resolves the whole decode of the default
   * stack, slots and final head alike, does not depend on the head (and so
   * on the captured bytes) at all.
   */
  lemma {:induction false} DefaultDecodeIgnoresHead(rt: Runtime, ns: string, h1: Context, h2: Context)
    requires Resolvable(rt, ns, "Ethernet")
    requires Resolvable(rt, ns, NoProtocolName)
    ensures DecodeLevels(rt, ns, DefaultOrder, DefaultLevels, h1, map[])
         == DecodeLevels(rt, ns, DefaultOrder, DefaultLevels, h2, map[])
  {
    var first := Single("Ethernet");
    assert DefaultLevels[DefaultOrder[0]] == first;
    SingleLevelIgnoresHead(rt, ns, 0, "Ethernet", h1, h2, map[]);
    assert AllResolvable(rt, ns, Candidates(first));
    var a := DecodeLevel(rt, ns, 0, first, h1, map[]);
    assert a.error.None?;
    assert DecodeLevels(rt, ns, DefaultOrder, DefaultLevels, h1, map[])
        == DecodeLevels(rt, ns, DefaultOrder[1..], DefaultLevels, a.head, a.slots);
    assert DecodeLevels(rt, ns, DefaultOrder, DefaultLevels, h2, map[])
        == DecodeLevels(rt, ns, DefaultOrder[1..], DefaultLevels, a.head, a.slots);
  }
}
