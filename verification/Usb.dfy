/** USB descriptors (usb.rs): the iterator over a configuration's bytes and the choice of an
    interface. */
module Usb {
  import opened Results

  /** A parsed descriptor: the packed struct is the bytes it was copied from; of an unknown
      one only length and type are kept. */
  datatype Descriptor =
    | Config(raw: seq<Byte>)
    | Interface(raw: seq<Byte>)
    | Endpoint(raw: seq<Byte>)
    | Hid(raw: seq<Byte>)
    | Unknown(len: Byte, kind: Byte)

  /** Size of the struct a descriptor type is copied into; 0 for types that are not copied. */
  function StructSize(kind: Byte): (n: nat)
  {
    match kind
    case 2 => 9
    case 4 => 9
    case 5 => 7
    case 0x21 => 9
    case _ => 0
  }

  /** The descriptor at the front of some bytes, long enough for its struct. */
  function Decode(bytes: seq<Byte>): (d: Descriptor)
    requires |bytes| >= 2 && |bytes| >= StructSize(bytes[1])
  {
    var raw := bytes[..StructSize(bytes[1])];
    match bytes[1]
    case 2 => Config(raw)
    case 4 => Interface(raw)
    case 5 => Endpoint(raw)
    case 0x21 => Hid(raw)
    case _ => Unknown(bytes[0], bytes[1])
  }

  /** What one call of the iterator does at an index. */
  datatype Outcome = Ended | Panicked | Yielded(d: Descriptor, next: nat)

  function At(buf: seq<Byte>, i: nat): (r: Outcome)
  {
    if i >= |buf| then Ended
    else if i + 1 >= |buf| then Panicked
    else if |buf| - i < StructSize(buf[i + 1]) then Ended
    else Yielded(Decode(buf[i..]), i + buf[i])
  }

  /** `DescriptorIterator`. */
  class DescriptorIterator {
    const buf: seq<Byte>
    var index: nat

    constructor (buf: seq<Byte>)
      ensures this.buf == buf && index == 0
    {
      this.buf := buf;
      index := 0;
    }

    method Next() returns (r: Attempt<Descriptor>)
      modifies this
      ensures match At(buf, old(index))
              case Yielded(d, next) => r == Got(d) && index == next
              case Panicked => r == Panic && index == old(index)
              case Ended => r == Nothing && index == old(index)
    {
      if index >= |buf| {
        return Nothing;
      }
      var rest := buf[index..];
      if |rest| < 2 {
        return Panic;
      }
      var len, kind := rest[0], rest[1];
      if |rest| < StructSize(kind) {
        return Nothing;
      }
      var d := Decode(rest);
      index := index + len;
      return Got(d);
    }
  }

  // ----- when iteration ends -----

  /** Every descriptor on the way has a nonzero length, and a type byte, until the end or one
      cut short. */
  predicate Halts(buf: seq<Byte>, i: nat)
    decreases |buf| - i
  {
    match At(buf, i)
    case Ended => true
    case Panicked => false
    case Yielded(_, next) => next > i && Halts(buf, next)
  }

  /** All descriptors from an index on. */
  function Collected(buf: seq<Byte>, i: nat): (ds: seq<Descriptor>)
    requires Halts(buf, i)
    decreases |buf| - i
  {
    match At(buf, i)
    case Ended => []
    case Yielded(d, next) => [d] + Collected(buf, next)
  }

  /** `iter.collect()`. */
  method Collect(buf: seq<Byte>) returns (ds: seq<Descriptor>)
    requires Halts(buf, 0)
    ensures ds == Collected(buf, 0)
  {
    var it := new DescriptorIterator(buf);
    ds := [];
    while true
      invariant fresh(it) && it.buf == buf
      invariant Halts(buf, it.index) && Collected(buf, 0) == ds + Collected(buf, it.index)
      decreases |buf| - it.index
    {
      var d := it.Next();
      if d.Nothing? {
        return;
      }
      ds := ds + [d.value];
    }
  }

  /** The iterator reaches index j from i after some calls. */
  predicate Reaches(buf: seq<Byte>, i: nat, j: nat, calls: nat)
    decreases calls
  {
    if calls == 0 then i == j
    else At(buf, i).Yielded? && Reaches(buf, At(buf, i).next, j, calls - 1)
  }

  /** A place that is never left: the call panics there, or yields and does not advance. */
  predicate Stuck(buf: seq<Byte>, j: nat)
  {
    At(buf, j).Panicked? || (At(buf, j).Yielded? && At(buf, j).next == j)
  }

  /** Otherwise iteration never ends: it comes to a place it does not leave. */
  lemma {:induction false} NotHaltingIsStuck(buf: seq<Byte>, i: nat) returns (j: nat, calls: nat)
    requires !Halts(buf, i)
    ensures Reaches(buf, i, j, calls) && Stuck(buf, j)
    decreases |buf| - i
  {
    if Stuck(buf, i) {
      j, calls := i, 0;
    } else {
      var k;
      j, k := NotHaltingIsStuck(buf, At(buf, i).next);
      calls := k + 1;
    }
  }

  lemma {:induction false} HaltingIsNeverStuck(buf: seq<Byte>, i: nat, j: nat, calls: nat)
    requires Halts(buf, i) && Reaches(buf, i, j, calls)
    ensures !Stuck(buf, j)
    decreases calls
  {
    if calls > 0 {
      HaltingIsNeverStuck(buf, At(buf, i).next, j, calls - 1);
    }
  }

  /** A zero length byte is where iteration hangs: the same descriptor is yielded for ever. */
  lemma ZeroLengthIsStuck(buf: seq<Byte>, i: nat)
    requires At(buf, i).Yielded?
    ensures At(buf, i).next == i <==> buf[i] == 0
    ensures buf[i] == 0 ==> Stuck(buf, i) && !Halts(buf, i)
  {
  }

  /** Two inputs that do not halt: an unknown descriptor of length 0, and a lone last byte.  One
      that is shorter than its struct ends the iteration without being yielded. */
  lemma HangAndPanic()
    ensures Halts([9, 4, 0, 0, 1, 3, 0, 0], 0) && Collected([9, 4, 0, 0, 1, 3, 0, 0], 0) == []
    ensures At([0, 1], 0) == Yielded(Unknown(0, 1), 0) && !Halts([0, 1], 0)
    ensures At([7], 0) == Panicked && !Halts([7], 0)
  {
    assert [0, 1][0..] == [0, 1];
  }

  // ----- round trip -----

  /** A descriptor as a device sends it: type and payload; the length byte counts both
      header bytes. */
  datatype Sent = Sent(kind: Byte, payload: seq<Byte>)

  predicate WellFormed(s: Sent) { StructSize(s.kind) <= |s.payload| + 2 < 256 }

  function Encode(s: Sent): (bytes: seq<Byte>)
    requires WellFormed(s)
  {
    [|s.payload| + 2, s.kind] + s.payload
  }

  function EncodeAll(ss: seq<Sent>): (bytes: seq<Byte>)
    requires forall k :: 0 <= k < |ss| ==> WellFormed(ss[k])
  {
    if ss == [] then [] else Encode(ss[0]) + EncodeAll(ss[1..])
  }

  /** What the driver keeps of one: for the four types it knows, length, type and as much of
      the payload as the struct holds; of any other only length and type. */
  function KeptOf(s: Sent): (d: Descriptor)
    requires WellFormed(s)
  {
    var head: seq<Byte> := [|s.payload| + 2, s.kind];
    match s.kind
    case 2 => Config(head + s.payload[..7])
    case 4 => Interface(head + s.payload[..7])
    case 5 => Endpoint(head + s.payload[..5])
    case 0x21 => Hid(head + s.payload[..7])
    case _ => Unknown(|s.payload| + 2, s.kind)
  }

  function Kept(ss: seq<Sent>): (ds: seq<Descriptor>)
    requires forall k :: 0 <= k < |ss| ==> WellFormed(ss[k])
  {
    if ss == [] then [] else [KeptOf(ss[0])] + Kept(ss[1..])
  }

  /** A sent descriptor decodes to what is kept of it, whatever follows. */
  lemma DecodeFront(s: Sent, tail: seq<Byte>)
    requires WellFormed(s)
    ensures Decode(Encode(s) + tail) == KeptOf(s)
  {
    var n, head: seq<Byte> := StructSize(s.kind), [|s.payload| + 2, s.kind];
    if n > 0 {
      assert (Encode(s) + tail)[..n] == head + s.payload[..n - 2];
    }
  }

  /** The iterator at a sent descriptor. */
  lemma AtSent(front: seq<Byte>, s: Sent, tail: seq<Byte>)
    requires WellFormed(s)
    ensures At(front + Encode(s) + tail, |front|) == Yielded(KeptOf(s), |front + Encode(s)|)
  {
    hide KeptOf, Decode;
    var buf, i, e := front + Encode(s) + tail, |front|, Encode(s);
    assert buf[i..] == e + tail;
    assert buf[i] == e[0] && buf[i + 1] == e[1];
    DecodeFront(s, tail);
  }

  /** Iterating over the concatenated encoding of any descriptors halts and yields what is
      kept of each, in order. */
  lemma {:induction false} IterationRoundTrip(front: seq<Byte>, ss: seq<Sent>)
    requires forall k :: 0 <= k < |ss| ==> WellFormed(ss[k])
    ensures Halts(front + EncodeAll(ss), |front|)
    ensures Collected(front + EncodeAll(ss), |front|) == Kept(ss)
    decreases |ss|
  {
    hide At, Encode, KeptOf, WellFormed;
    var buf := front + EncodeAll(ss);
    if ss == [] {
      assert buf == front;
      AtEnd(buf);
    } else {
      var e, rest := Encode(ss[0]), ss[1..];
      EncodeLength(ss[0]);
      IterationRoundTrip(front + e, rest);
      assert buf == front + e + EncodeAll(rest);
      AtSent(front, ss[0], EncodeAll(rest));
    }
  }

  lemma AtEnd(buf: seq<Byte>)
    ensures At(buf, |buf|) == Ended
  {
  }

  lemma EncodeLength(s: Sent)
    requires WellFormed(s)
    ensures |Encode(s)| > 0
  {
  }

  // ----- choosing an interface -----

  /** `InterfaceDescriptor::triple` of a 9-byte struct. */
  predicate Matches(d: Descriptor, triple: seq<Byte>)
  {
    d.Interface? && |d.raw| == 9 && d.raw[5..8] == triple
  }

  predicate IsOther(d: Descriptor) { !d.Config? && !d.Interface? }

  function LastConfig(ds: seq<Descriptor>): (r: Option<Descriptor>)
  {
    if ds == [] then None
    else if ds[|ds| - 1].Config? then Some(ds[|ds| - 1])
    else LastConfig(ds[..|ds| - 1])
  }

  function LastMatch(ds: seq<Descriptor>, triple: seq<Byte>): (r: Option<Descriptor>)
  {
    if ds == [] then None
    else if Matches(ds[|ds| - 1], triple) then Some(ds[|ds| - 1])
    else LastMatch(ds[..|ds| - 1], triple)
  }

  function Others(ds: seq<Descriptor>): (r: seq<Descriptor>)
  {
    if ds == [] then []
    else Others(ds[..|ds| - 1]) + if IsOther(ds[|ds| - 1]) then [ds[|ds| - 1]] else []
  }

  /** The first matching interface, and the first configuration from an index on. */
  function FirstMatch(ds: seq<Descriptor>, triple: seq<Byte>, from: nat): (i: nat)
    requires from <= |ds|
    ensures from <= i <= |ds| && (i < |ds| ==> Matches(ds[i], triple))
    ensures forall j :: from <= j < i ==> !Matches(ds[j], triple)
    decreases |ds| - from
  {
    if from == |ds| || Matches(ds[from], triple) then from else FirstMatch(ds, triple, from + 1)
  }

  function NextConfig(ds: seq<Descriptor>, from: nat): (i: nat)
    requires from <= |ds|
    ensures from <= i <= |ds| && (i < |ds| ==> ds[i].Config?)
    ensures forall j :: from <= j < i ==> !ds[j].Config?
    decreases |ds| - from
  {
    if from == |ds| || ds[from].Config? then from else NextConfig(ds, from + 1)
  }

  /** The choice: nothing when no interface matches or the first match stands before every
      configuration; otherwise the configuration enclosing the first match, the last matching
      interface inside it, and all its other descriptors from the first match on. */
  function Picked(ds: seq<Descriptor>, triple: seq<Byte>): (r: Option<(Descriptor, Descriptor, seq<Descriptor>)>)
  {
    var f := FirstMatch(ds, triple, 0);
    var config := LastConfig(ds[..f]);
    if f == |ds| || config.None? then None
    else
      var e := NextConfig(ds, f);
      var last := LastMatch(ds[f..e], triple);
      if last.None? then None else Some((config.value, last.value, Others(ds[f..e])))
  }

  /** Something is picked if and only if a configuration stands before the first match. */
  lemma PickedIff(ds: seq<Descriptor>, triple: seq<Byte>)
    ensures Picked(ds, triple).Some? <==>
              exists c, f :: 0 <= c < f < |ds| && ds[c].Config? && Matches(ds[f], triple)
                             && forall j :: 0 <= j < f ==> !Matches(ds[j], triple)
  {
    var f := FirstMatch(ds, triple, 0);
    PickedWhen(ds, triple);
    hide Matches, Picked, FirstMatch, LastConfig;
    LastConfigIff(ds[..f]);
    if Picked(ds, triple).Some? {
      var c :| 0 <= c < f && ds[..f][c].Config?;
      assert ds[c].Config?;
    }
    if c, g :| 0 <= c < g < |ds| && ds[c].Config? && Matches(ds[g], triple)
               && forall j :: 0 <= j < g ==> !Matches(ds[j], triple) {
      assert g == f && ds[..f][c].Config?;
    }
  }

  /** The descriptors at some places, which rise from f on and below e and are all those there
      that are neither a configuration nor an interface. */
  predicate OthersAt(ds: seq<Descriptor>, f: nat, e: nat, places: seq<nat>, list: seq<Descriptor>)
    requires f <= e <= |ds|
  {
    && |places| == |list|
    && (forall j :: 0 <= j < |places| ==> f <= places[j] < e && list[j] == ds[places[j]])
    && (forall i, j :: 0 <= i < j < |places| ==> places[i] < places[j])
    && (forall i :: f <= i < e ==> (!ds[i].Config? && !ds[i].Interface? <==> i in places))
  }

  /** What is picked, by index: the configuration at c is the last before the first match at f,
      the interface at k the last match before the next configuration at e, and the list holds
      the other descriptors between f and e in their order. */
  predicate PickedAt(ds: seq<Descriptor>, triple: seq<Byte>, c: nat, f: nat, k: nat, e: nat, places: seq<nat>,
                     r: (Descriptor, Descriptor, seq<Descriptor>))
  {
    && c < f <= k < e <= |ds|
    && ds[c].Config? && (forall j :: c < j < f ==> !ds[j].Config?)
    && Matches(ds[f], triple) && (forall j :: 0 <= j < f ==> !Matches(ds[j], triple))
    && Matches(ds[k], triple) && (forall j :: k < j < e ==> !Matches(ds[j], triple))
    && (forall j :: f <= j < e ==> !ds[j].Config?) && (e < |ds| ==> ds[e].Config?)
    && r.0 == ds[c] && r.1 == ds[k] && OthersAt(ds, f, e, places, r.2)
  }

  lemma PickedByIndex(ds: seq<Descriptor>, triple: seq<Byte>) returns (c: nat, f: nat, k: nat, e: nat, places: seq<nat>)
    requires Picked(ds, triple).Some?
    ensures PickedAt(ds, triple, c, f, k, e, places, Picked(ds, triple).value)
  {
    f := FirstMatch(ds, triple, 0);
    e := NextConfig(ds, f);
    hide Matches, LastMatch, LastConfig, Others, FirstMatch, NextConfig;
    c := LastConfigAt(ds, f);
    k := LastMatchAt(ds, f, e, triple);
    places := OtherPlaces(ds, f, e);
  }

  lemma {:induction false} LastConfigAt(ds: seq<Descriptor>, n: nat) returns (c: nat)
    requires n <= |ds| && LastConfig(ds[..n]).Some?
    ensures c < n && ds[c].Config? && LastConfig(ds[..n]) == Some(ds[c]) && forall j :: c < j < n ==> !ds[j].Config?
    decreases n
  {
    assert ds[..n][..n - 1] == ds[..n - 1];
    if ds[n - 1].Config? {
      c := n - 1;
    } else {
      c := LastConfigAt(ds, n - 1);
    }
  }

  lemma {:induction false} LastMatchAt(ds: seq<Descriptor>, f: nat, n: nat, triple: seq<Byte>) returns (k: nat)
    requires f <= n <= |ds| && LastMatch(ds[f..n], triple).Some?
    ensures f <= k < n && Matches(ds[k], triple) && LastMatch(ds[f..n], triple) == Some(ds[k])
    ensures forall j :: k < j < n ==> !Matches(ds[j], triple)
    decreases n
  {
    hide Matches;
    assert n > f;
    assert ds[f..n][..n - 1 - f] == ds[f..n - 1];
    if Matches(ds[n - 1], triple) {
      k := n - 1;
    } else {
      k := LastMatchAt(ds, f, n - 1, triple);
    }
  }

  lemma {:induction false} OtherPlaces(ds: seq<Descriptor>, f: nat, n: nat) returns (places: seq<nat>)
    requires f <= n <= |ds|
    ensures OthersAt(ds, f, n, places, Others(ds[f..n]))
    decreases n
  {
    if f == n {
      places := [];
    } else {
      assert ds[f..n][..n - 1 - f] == ds[f..n - 1];
      places := OtherPlaces(ds, f, n - 1);
      if IsOther(ds[n - 1]) {
        places := places + [n - 1];
      }
    }
  }

  lemma PickedWhen(ds: seq<Descriptor>, triple: seq<Byte>)
    ensures var f := FirstMatch(ds, triple, 0);
            Picked(ds, triple).Some? <==> f < |ds| && LastConfig(ds[..f]).Some?
  {
    var f := FirstMatch(ds, triple, 0);
    hide Matches, LastMatch, LastConfig, Others, FirstMatch;
    if f < |ds| {
      var e := NextConfig(ds, f);
      MatchIsNoConfig(ds[f], triple);
      assert ds[f..e][0] == ds[f];
      LastMatchIff(ds[f..e], triple);
    }
  }

  lemma MatchIsNoConfig(d: Descriptor, triple: seq<Byte>)
    requires Matches(d, triple)
    ensures !d.Config?
  {
  }

  lemma {:induction false} LastConfigIff(ds: seq<Descriptor>)
    ensures LastConfig(ds).Some? <==> exists c :: 0 <= c < |ds| && ds[c].Config?
    decreases |ds|
  {
    if ds != [] && !ds[|ds| - 1].Config? {
      LastConfigIff(ds[..|ds| - 1]);
    }
  }

  lemma {:induction false} LastMatchIff(ds: seq<Descriptor>, triple: seq<Byte>)
    ensures LastMatch(ds, triple).Some? <==> exists k :: 0 <= k < |ds| && Matches(ds[k], triple)
    decreases |ds|
  {
    hide Matches;
    if ds != [] && !Matches(ds[|ds| - 1], triple) {
      LastMatchIff(ds[..|ds| - 1], triple);
    }
  }

  /** The bytes of a tablet's configuration: a configuration, an interface with class 3 and
      subclass and protocol 0, its HID descriptor and its endpoint, and one of another type. */
  const SAMPLE: seq<Byte> :=
    [9, 2, 37, 0, 1, 1, 7, 160, 50]
    + ([9, 4, 0, 0, 1, 3, 0, 0, 5]
       + ([9, 0x21, 1, 0, 0, 1, 0x22, 74, 0]
          + ([7, 5, 0x81, 3, 8, 0, 4]
             + [3, 0x30, 9])))

  const SAMPLE_SENT: seq<Sent> :=
    [Sent(2, [37, 0, 1, 1, 7, 160, 50]), Sent(4, [0, 0, 1, 3, 0, 0, 5]), Sent(0x21, [1, 0, 0, 1, 0x22, 74, 0]),
     Sent(5, [0x81, 3, 8, 0, 4]), Sent(0x30, [9])]

  /** From the bytes to the choice: each descriptor under its type with its bytes, and for the
      triple (3, 0, 0) the configuration, the interface, and the three that follow. */
  lemma SamplePicked()
    ensures Halts(SAMPLE, 0)
    ensures var config, interface := Config([9, 2, 37, 0, 1, 1, 7, 160, 50]), Interface([9, 4, 0, 0, 1, 3, 0, 0, 5]);
            var hid, endpoint := Hid([9, 0x21, 1, 0, 0, 1, 0x22, 74, 0]), Endpoint([7, 5, 0x81, 3, 8, 0, 4]);
            && Collected(SAMPLE, 0) == [config, interface, hid, endpoint, Unknown(3, 0x30)]
            && Picked(Collected(SAMPLE, 0), [3, 0, 0]) == Some((config, interface, [hid, endpoint, Unknown(3, 0x30)]))
            && Picked(Collected(SAMPLE, 0), [3, 1, 1]) == None
  {
    SampleCollected();
    hide Halts, Collected, Picked;
    SampleChosen();
  }

  lemma SampleCollected()
    ensures Halts(SAMPLE, 0)
    ensures Collected(SAMPLE, 0) == [Config([9, 2, 37, 0, 1, 1, 7, 160, 50]), Interface([9, 4, 0, 0, 1, 3, 0, 0, 5]),
                                     Hid([9, 0x21, 1, 0, 0, 1, 0x22, 74, 0]), Endpoint([7, 5, 0x81, 3, 8, 0, 4]),
                                     Unknown(3, 0x30)]
  {
    hide Halts, Collected, At;
    IterationRoundTrip([], SAMPLE_SENT);
    SampleEncoded();
    assert [] + EncodeAll(SAMPLE_SENT) == EncodeAll(SAMPLE_SENT);
    SampleKept();
  }

  lemma SampleEncoded()
    ensures EncodeAll(SAMPLE_SENT) == SAMPLE
  {
  }

  lemma SampleKept()
    ensures Kept(SAMPLE_SENT) == [Config([9, 2, 37, 0, 1, 1, 7, 160, 50]), Interface([9, 4, 0, 0, 1, 3, 0, 0, 5]),
                                  Hid([9, 0x21, 1, 0, 0, 1, 0x22, 74, 0]), Endpoint([7, 5, 0x81, 3, 8, 0, 4]),
                                  Unknown(3, 0x30)]
  {
    var s := SAMPLE_SENT;
    SevenKept(s[0]);
    SevenKept(s[1]);
    SevenKept(s[2]);
    assert s[3].payload[..5] == s[3].payload;
    assert [9, 2] + s[0].payload == [9, 2, 37, 0, 1, 1, 7, 160, 50];
    assert [9, 4] + s[1].payload == [9, 4, 0, 0, 1, 3, 0, 0, 5];
    assert [9, 0x21] + s[2].payload == [9, 0x21, 1, 0, 0, 1, 0x22, 74, 0];
    assert KeptOf(s[3]) == Endpoint([7, 5, 0x81, 3, 8, 0, 4]) && KeptOf(s[4]) == Unknown(3, 0x30);
    hide KeptOf;
    KeptFive(s);
  }

  lemma SevenKept(s: Sent)
    requires |s.payload| == 7 && WellFormed(s) && s.kind in {2, 4, 0x21}
    ensures var raw := [9, s.kind] + s.payload;
            KeptOf(s) == match s.kind case 2 => Config(raw) case 4 => Interface(raw) case _ => Hid(raw)
  {
    assert s.payload[..7] == s.payload;
  }

  lemma KeptFive(ss: seq<Sent>)
    requires |ss| == 5 && forall k :: 0 <= k < |ss| ==> WellFormed(ss[k])
    ensures Kept(ss) == [KeptOf(ss[0]), KeptOf(ss[1]), KeptOf(ss[2]), KeptOf(ss[3]), KeptOf(ss[4])]
  {
    hide KeptOf, WellFormed;
    assert ss[0..] == ss && ss[5..] == [];
    KeptFrom(ss, 0);
    KeptFrom(ss, 1);
    KeptFrom(ss, 2);
    KeptFrom(ss, 3);
    KeptFrom(ss, 4);
  }

  lemma KeptFrom(ss: seq<Sent>, k: nat)
    requires k < |ss| && forall j :: 0 <= j < |ss| ==> WellFormed(ss[j])
    ensures Kept(ss[k..]) == [KeptOf(ss[k])] + Kept(ss[k + 1..])
  {
    hide KeptOf, WellFormed;
    assert ss[k..][1..] == ss[k + 1..];
  }

  /** A configuration with one interface and three descriptors for it. */
  lemma OneInterface(config: Descriptor, interface: Descriptor, a: Descriptor, b: Descriptor, c: Descriptor,
                     triple: seq<Byte>)
    requires config.Config? && interface.Interface? && IsOther(a) && IsOther(b) && IsOther(c)
    ensures Picked([config, interface, a, b, c], triple)
         == if Matches(interface, triple) then Some((config, interface, [a, b, c])) else None
  {
    var ds := [config, interface, a, b, c];
    PickedIff(ds, triple);
    if Matches(interface, triple) {
      assert FirstMatch(ds, triple, 0) == FirstMatch(ds, triple, 1) == 1;
      assert NextConfig(ds, 1) == 5 by { assert forall j :: 1 <= j < 5 ==> !ds[j].Config?; }
      assert ds[..1] == [] + [config] && ds[1..5] == [] + [interface] + [a] + [b] + [c];
      OneMore([], config, triple);
      OneMore([], interface, triple);
      OneMore([] + [interface], a, triple);
      OneMore([] + [interface] + [a], b, triple);
      OneMore([] + [interface] + [a] + [b], c, triple);
      assert Others(ds[1..5]) == [a, b, c] && LastMatch(ds[1..5], triple) == Some(interface);
      assert LastConfig(ds[..1]) == Some(config);
      hide Others, LastMatch, LastConfig, FirstMatch, NextConfig, Matches;
    }
  }

  lemma SampleChosen()
    ensures var config, interface := Config([9, 2, 37, 0, 1, 1, 7, 160, 50]), Interface([9, 4, 0, 0, 1, 3, 0, 0, 5]);
            var hid, endpoint := Hid([9, 0x21, 1, 0, 0, 1, 0x22, 74, 0]), Endpoint([7, 5, 0x81, 3, 8, 0, 4]);
            var ds := [config, interface, hid, endpoint, Unknown(3, 0x30)];
            && Picked(ds, [3, 0, 0]) == Some((config, interface, [hid, endpoint, Unknown(3, 0x30)]))
            && Picked(ds, [3, 1, 1]) == None
  {
    hide Picked;
    var config, interface := Config([9, 2, 37, 0, 1, 1, 7, 160, 50]), Interface([9, 4, 0, 0, 1, 3, 0, 0, 5]);
    var hid, endpoint := Hid([9, 0x21, 1, 0, 0, 1, 0x22, 74, 0]), Endpoint([7, 5, 0x81, 3, 8, 0, 4]);
    assert interface.raw[5..8] == [3, 0, 0];
    assert [3, 0, 0][1] != [3, 1, 1][1];
    OneInterface(config, interface, hid, endpoint, Unknown(3, 0x30), [3, 0, 0]);
    OneInterface(config, interface, hid, endpoint, Unknown(3, 0x30), [3, 1, 1]);
  }

  /** A match before the only configuration and one inside it: nothing is picked. */
  lemma EarlyMatchPicksNothing()
    ensures var hid, config := Interface([9, 4, 0, 0, 1, 3, 1, 1, 0]), Config([9, 2, 18, 0, 1, 1, 0, 160, 50]);
            Picked([hid, config, hid], [3, 1, 1]) == None && Picked([config, hid], [3, 1, 1]) == Some((config, hid, []))
  {
    var hid, config := Interface([9, 4, 0, 0, 1, 3, 1, 1, 0]), Config([9, 2, 18, 0, 1, 1, 0, 160, 50]);
    var triple: seq<Byte> := [3, 1, 1];
    assert Matches(hid, triple) by { assert hid.raw[5..8] == triple; }
    assert FirstMatch([hid, config, hid], triple, 0) == 0;
    assert FirstMatch([config, hid], triple, 0) == 1;
    var front := [config, hid][..1];
    assert front == [config];
    assert NextConfig([config, hid], 1) == 2;
    var inside := [config, hid][1..2];
    assert inside == [hid] && inside[..0] == [];
    assert LastConfig(front) == Some(config) && LastMatch(inside, triple) == Some(hid);
    assert Others(inside[..0]) == [] && Others(inside) == [];
  }

  /** The state of the loop after i descriptors, with f the first match. */
  predicate Scanned(ds: seq<Descriptor>, triple: seq<Byte>, i: nat, f: nat,
                    config: Option<Descriptor>, interface: Option<Descriptor>, list: seq<Descriptor>)
    requires i <= |ds| && f <= |ds|
  {
    if i <= f then config == LastConfig(ds[..i]) && interface.None? && list == []
    else
      && config == LastConfig(ds[..f])
      && interface == LastMatch(ds[f..i], triple) && interface.Some?
      && list == Others(ds[f..i])
      && forall j :: f <= j < i ==> !ds[j].Config?
  }

  lemma ScanStep(ds: seq<Descriptor>, triple: seq<Byte>, i: nat, f: nat)
    requires f <= |ds| && i < |ds|
    ensures i < f ==> LastConfig(ds[..i + 1]) == (if ds[i].Config? then Some(ds[i]) else LastConfig(ds[..i]))
    ensures i >= f ==>
              LastMatch(ds[f..i + 1], triple)
              == (if Matches(ds[i], triple) then Some(ds[i]) else LastMatch(ds[f..i], triple))
    ensures i >= f ==> Others(ds[f..i + 1]) == Others(ds[f..i]) + (if IsOther(ds[i]) then [ds[i]] else [])
  {
    hide LastConfig, LastMatch, Others, Matches;
    if i < f {
      assert ds[..i + 1] == ds[..i] + [ds[i]];
      OneMore(ds[..i], ds[i], triple);
    } else {
      assert ds[f..i + 1] == ds[f..i] + [ds[i]];
      OneMore(ds[f..i], ds[i], triple);
    }
  }

  lemma OneMore(ds: seq<Descriptor>, d: Descriptor, triple: seq<Byte>)
    ensures LastConfig(ds + [d]) == if d.Config? then Some(d) else LastConfig(ds)
    ensures LastMatch(ds + [d], triple) == if Matches(d, triple) then Some(d) else LastMatch(ds, triple)
    ensures Others(ds + [d]) == Others(ds) + if IsOther(d) then [d] else []
  {
    assert (ds + [d])[..|ds|] == ds;
  }

  /** `pick_interface_with_triple`. */
  method PickInterface(ds: seq<Descriptor>, triple: seq<Byte>)
    returns (r: Option<(Descriptor, Descriptor, seq<Descriptor>)>)
    ensures r == Picked(ds, triple)
  {
    ghost var f := FirstMatch(ds, triple, 0);
    var config: Option<Descriptor> := None;
    var interface: Option<Descriptor> := None;
    var list: seq<Descriptor> := [];
    var i := 0;
    while i < |ds|
      invariant 0 <= i <= |ds| && Scanned(ds, triple, i, f, config, interface, list)
    {
      var d := ds[i];
      ScanStep(ds, triple, i, f);
      assert ds[f..f] == [];
      hide LastConfig, LastMatch, Others, FirstMatch;
      if d.Config? {
        if interface.Some? {
          break;
        }
        config := Some(d);
        list := [];
      } else if d.Interface? {
        if Matches(d, triple) {
          interface := Some(d);
        }
      } else {
        if interface.Some? {
          list := list + [d];
        }
      }
      i := i + 1;
    }
    hide LastConfig, LastMatch, Others, FirstMatch;
    if f < i {
      assert i == NextConfig(ds, f);
    }
    if config.Some? && interface.Some? {
      return Some((config.value, interface.value, list));
    } else {
      return None;
    }
  }
}
