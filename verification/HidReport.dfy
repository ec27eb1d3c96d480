/** HID report descriptors and reports (tablet.rs): the streaming parser against
    tokenise-then-fold and against a lookback reading of the tokens, the layout of the fields
    it yields, and their decoding. */
module HidReport {
  import opened Results
  import opened Numbers
  import opened BitSlice
  import Bits
  import Ranges

  // ----- data -----

  datatype UsagePage = GenericDesktop | ButtonPage | UnknownPage(n: nat)

  datatype Usage = Pointer | Mouse | X | Y | Wheel | Button(n: nat) | UnknownUsage(n: nat) | Constant

  datatype Field = Field(usage: Usage, bitSize: nat, isArray: bool, isAbsolute: bool, bitOffset: nat,
                         logicalMin: nat, logicalMax: nat)

  datatype Kind = Main | Global | Local

  /** A short item: its type, tag and data as a number. */
  datatype Token = Token(kind: Kind, tag: nat, value: nat)

  predicate IsInput(t: Token) { t.kind.Main? && t.tag == 8 }

  // ----- tokens -----

  function DataSize(prefix: Byte): (n: nat) { if prefix % 4 == 3 then 4 else prefix % 4 }

  /** The item type, or nothing for the reserved one, at which parsing stops. */
  function KindOf(prefix: Byte): (k: Option<Kind>)
  {
    match prefix / 4 % 4
    case 0 => Some(Main)
    case 1 => Some(Global)
    case 2 => Some(Local)
    case _ => None
  }

  /** The bytes after an item's prefix that are its data; fewer than announced at the end. */
  function DataLen(bytes: seq<Byte>): (n: nat)
    requires bytes != []
    ensures n < |bytes|
  {
    Min(DataSize(bytes[0]), |bytes| - 1)
  }

  function TokenOf(bytes: seq<Byte>, kind: Kind): (t: Token)
    requires bytes != []
  {
    Token(kind, bytes[0] / 16, LittleEndian(bytes[1..1 + DataLen(bytes)]))
  }

  function Tokens(bytes: seq<Byte>): (ts: seq<Token>)
    decreases |bytes|
  {
    if bytes == [] || KindOf(bytes[0]).None? then []
    else [TokenOf(bytes, KindOf(bytes[0]).value)] + Tokens(bytes[1 + DataLen(bytes)..])
  }

  // ----- the fold -----

  datatype Globals = Globals(page: Option<UsagePage>, size: nat, count: nat, min: nat, max: nat)
  datatype Locals = Locals(queue: seq<Usage>, min: Option<nat>, max: Option<nat>)
  datatype State = State(g: Globals, l: Locals, offset: nat, fields: seq<Field>)

  const NO_LOCALS: Locals := Locals([], None, None)
  const START: State := State(Globals(None, 0, 0, 0, 0), NO_LOCALS, 0, [])

  function PageOf(v: nat): (p: UsagePage)
  {
    if v == 1 then GenericDesktop else if v == 9 then ButtonPage else UnknownPage(v)
  }

  function UsageOf(page: Option<UsagePage>, v: nat): (u: Usage)
  {
    if page == Some(GenericDesktop) then
      match v
      case 0x01 => Pointer
      case 0x02 => Mouse
      case 0x30 => X
      case 0x31 => Y
      case 0x38 => Wheel
      case _ => UnknownUsage(v)
    else UnknownUsage(v)
  }

  /** The usage of the i-th field of an Input item: queued ones first, then the button range. */
  function FieldUsage(page: UsagePage, l: Locals, constant: bool, i: nat): (u: Usage)
  {
    if i < |l.queue| then l.queue[i]
    else if page.ButtonPage? && l.min.Some? && l.max.Some? then
      if l.min.value + i <= l.max.value then Button(l.min.value + i) else UnknownUsage(l.min.value + i)
    else if constant then Constant
    else UnknownUsage(0)
  }

  function FieldAt(g: Globals, l: Locals, attr: nat, offset: nat, i: nat): (f: Field)
    requires g.page.Some?
  {
    Field(FieldUsage(g.page.value, l, attr % 2 == 1, i), g.size, attr / 2 % 2 == 1, attr / 4 % 2 == 0,
          offset + i * g.size, g.min, g.max)
  }

  /** The first n fields of an Input item. */
  function Fields(g: Globals, l: Locals, attr: nat, offset: nat, n: nat): (fs: seq<Field>)
    requires g.page.Some?
    ensures |fs| == n
  {
    if n == 0 then [] else Fields(g, l, attr, offset, n - 1) + [FieldAt(g, l, attr, offset, n - 1)]
  }

  function GlobalStep(g: Globals, t: Token): (g': Globals)
  {
    match t.tag
    case 0 => g.(page := Some(PageOf(t.value)))
    case 1 => g.(min := t.value)
    case 2 => g.(max := t.value)
    case 7 => g.(size := t.value)
    case 9 => g.(count := t.value)
    case _ => g
  }

  function LocalStep(l: Locals, page: Option<UsagePage>, t: Token): (l': Locals)
  {
    match t.tag
    case 0 => l.(queue := l.queue + [UsageOf(page, t.value)])
    case 1 => l.(min := Some(t.value))
    case 2 => l.(max := Some(t.value))
    case _ => l
  }

  function Step(s: State, t: Token): (s': State)
  {
    match t.kind
    case Global => s.(g := GlobalStep(s.g, t))
    case Local => s.(l := LocalStep(s.l, s.g.page, t))
    case Main =>
      if IsInput(t) && s.g.page.Some? then
        State(s.g, NO_LOCALS, s.offset + s.g.count * s.g.size,
              s.fields + Fields(s.g, s.l, t.value, s.offset, s.g.count))
      else s.(l := NO_LOCALS)
  }

  /** The state after all tokens. */
  function Fold(ts: seq<Token>): (s: State)
  {
    if ts == [] then START else Step(Fold(ts[..|ts| - 1]), ts[|ts| - 1])
  }

  // ----- the parser -----

  /** The loop over `report_count` of an Input item. */
  method EmitFields(g: Globals, l: Locals, attr: nat, offset: nat, before: seq<Field>)
    returns (fields: seq<Field>, offset': nat, queue: seq<Usage>)
    requires g.page.Some?
    ensures fields == before + Fields(g, l, attr, offset, g.count)
    ensures offset' == offset + g.count * g.size
  {
    fields, offset', queue := before, offset, l.queue;
    var isConstant, isArray := ExtractBits(attr, 0, 1) == 1, ExtractBits(attr, 1, 1) == 1;
    var isAbsolute := ExtractBits(attr, 2, 1) == 0;
    AttrBits(attr);
    hide ExtractBits;
    for i := 0 to g.count
      invariant fields == before + Fields(g, l, attr, offset, i)
      invariant offset' == offset + i * g.size
      invariant queue == Left(l.queue, i)
    {
      var usage;
      usage, queue := NextUsage(g.page.value, l, isConstant, i, queue);
      var f := Field(usage, g.size, isArray, isAbsolute, offset', g.min, g.max);
      assert f == FieldAt(g, l, attr, offset, i);
      fields := fields + [f];
      offset' := offset' + g.size;
      NextMultiple(i, g.size);
    }
  }

  lemma NextMultiple(i: nat, size: nat)
    ensures i * size + size == (i + 1) * size
  {
  }

  function Left(queue: seq<Usage>, i: nat): (r: seq<Usage>) { if i < |queue| then queue[i..] else [] }

  /** The usage of field i: the front of the queue, else by page. */
  method NextUsage(page: UsagePage, l: Locals, isConstant: bool, i: nat, queue: seq<Usage>)
    returns (usage: Usage, queue': seq<Usage>)
    requires queue == Left(l.queue, i)
    ensures usage == FieldUsage(page, l, isConstant, i) && queue' == Left(l.queue, i + 1)
  {
    queue' := queue;
    if queue != [] {
      usage := queue[0];
      queue' := queue[1..];
    } else if page.ButtonPage? && l.min.Some? && l.max.Some? {
      var index := l.min.value + i;
      usage := if index <= l.max.value then Button(index) else UnknownUsage(index);
    } else if isConstant {
      usage := Constant;
    } else {
      usage := UnknownUsage(0);
    }
  }

  /** The attribute bits of an Input item. */
  lemma AttrBits(attr: nat)
    ensures ExtractBits(attr, 0, 1) == attr % 2 && ExtractBits(attr, 1, 1) == attr / 2 % 2
    ensures ExtractBits(attr, 2, 1) == attr / 4 % 2
  {
    OneBit(attr, 0);
    OneBit(attr, 1);
    OneBit(attr, 2);
    assert Bits.Pow2(2) == 4;
  }

  lemma OneBit(v: nat, shift: nat)
    requires shift < 64
    ensures ExtractBits(v, shift, 1) == v / Bits.Pow2(shift) % 2
  {
    ExtractBitsValue(v, shift, 1);
    Bits.ShrLowAreDivMod(v, shift);
    assert Bits.Low(Bits.Shr(v, shift), 1) == Bits.Shr(v, shift) % 2;
  }

  /** The body of the parser's loop after decoding an item. */
  method HandleItem(s: State, t: Token) returns (s': State)
    ensures s' == Step(s, t)
  {
    s' := s;
    if t.kind.Main? && t.tag == 8 {
      if s.g.page.Some? {
        var fields, offset, queue := EmitFields(s.g, s.l, t.value, s.offset, s.fields);
        s' := s.(fields := fields, offset := offset, l := s.l.(queue := queue));
      }
    } else if t.kind.Global? {
      s' := s.(g := GlobalStep(s.g, t));
    } else if t.kind.Local? {
      s' := s.(l := LocalStep(s.l, s.g.page, t));
    }
    if t.kind.Main? {
      s' := s'.(l := NO_LOCALS);
    }
  }

  /** `parse_hid_report_descriptor`: one pass over the bytes. */
  method ParseReportDescriptor(report: seq<Byte>) returns (fields: seq<Field>)
    ensures fields == Fold(Tokens(report)).fields
  {
    FoldNothing();
    hide Fold, Step, Tokens, LittleEndian;
    var rest, s := report, START;
    ghost var seen: seq<Token> := [];
    while rest != []
      invariant s == Fold(seen)
      invariant Tokens(report) == seen + Tokens(rest)
      decreases |rest|
    {
      var kind := KindOf(rest[0]);
      NextToken(rest);
      if kind.None? {
        break;
      }
      var n := DataLen(rest);
      var t := Token(kind.value, rest[0] / 16, LittleEndian(rest[1..1 + n]));
      ghost var later := Tokens(rest[1 + n..]);
      FoldAppend(seen, t);
      s := HandleItem(s, t);
      assert seen + ([t] + later) == seen + [t] + later;
      seen := seen + [t];
      rest := rest[1 + n..];
    }
    if rest == [] {
      NextToken(rest);
    }
    assert seen + [] == seen;
    return s.fields;
  }

  lemma FoldNothing()
    ensures Fold([]) == START
  {
  }

  lemma NextToken(bytes: seq<Byte>)
    ensures bytes == [] || KindOf(bytes[0]).None? ==> Tokens(bytes) == []
    ensures bytes != [] && KindOf(bytes[0]).Some? ==>
              Tokens(bytes) == [TokenOf(bytes, KindOf(bytes[0]).value)] + Tokens(bytes[1 + DataLen(bytes)..])
  {
  }

  lemma FoldAppend(ts: seq<Token>, t: Token)
    ensures Fold(ts + [t]) == Step(Fold(ts), t)
  {
    assert (ts + [t])[..|ts|] == ts;
  }

  // ----- lookback: what a token sees, without running the fold -----

  /** The value of the last Global item with a tag. */
  function LastGlobal(ts: seq<Token>, tag: nat): (v: Option<nat>)
  {
    if ts == [] then None
    else
      var t := ts[|ts| - 1];
      if t.kind.Global? && t.tag == tag then Some(t.value) else LastGlobal(ts[..|ts| - 1], tag)
  }

  function ValueOr(v: Option<nat>, default: nat): (n: nat) { if v.Some? then v.value else default }

  /** The position after the last Main item: where the Local items still in force begin. */
  function LocalsBegin(ts: seq<Token>): (i: nat)
    ensures i <= |ts|
  {
    if ts == [] then 0
    else if ts[|ts| - 1].kind.Main? then |ts|
    else LocalsBegin(ts[..|ts| - 1])
  }

  /** The value of the last Local item with a tag at or after a position. */
  function LastLocal(ts: seq<Token>, tag: nat, from: nat): (v: Option<nat>)
  {
    if |ts| <= from then None
    else
      var t := ts[|ts| - 1];
      if t.kind.Local? && t.tag == tag then Some(t.value) else LastLocal(ts[..|ts| - 1], tag, from)
  }

  function PageAt(ts: seq<Token>): (p: Option<UsagePage>)
  {
    var v := LastGlobal(ts, 0);
    if v.None? then None else Some(PageOf(v.value))
  }

  /** The Usage items at or after a position, each read under the page in force where it stands. */
  function UsagesFrom(ts: seq<Token>, from: nat): (us: seq<Usage>)
  {
    if |ts| <= from then []
    else
      var n := |ts| - 1;
      var t := ts[n];
      UsagesFrom(ts[..n], from) + if t.kind.Local? && t.tag == 0 then [UsageOf(PageAt(ts[..n]), t.value)] else []
  }

  function SeenGlobals(ts: seq<Token>): (g: Globals)
  {
    Globals(PageAt(ts), ValueOr(LastGlobal(ts, 7), 0), ValueOr(LastGlobal(ts, 9), 0),
            ValueOr(LastGlobal(ts, 1), 0), ValueOr(LastGlobal(ts, 2), 0))
  }

  function SeenLocals(ts: seq<Token>): (l: Locals)
  {
    var from := LocalsBegin(ts);
    Locals(UsagesFrom(ts, from), LastLocal(ts, 1, from), LastLocal(ts, 2, from))
  }

  /** The fields of each Input item under a page, from what it sees, laid one after another. */
  function SeenFields(ts: seq<Token>): (fs: seq<Field>)
  {
    if ts == [] then []
    else
      var before, t := ts[..|ts| - 1], ts[|ts| - 1];
      var g := SeenGlobals(before);
      SeenFields(before) +
      if IsInput(t) && g.page.Some? then Fields(g, SeenLocals(before), t.value, TotalBits(SeenFields(before)), g.count)
      else []
  }

  function TotalBits(fs: seq<Field>): (n: nat)
  {
    if fs == [] then 0 else TotalBits(fs[..|fs| - 1]) + fs[|fs| - 1].bitSize
  }

  lemma {:induction false} GlobalsPersist(ts: seq<Token>)
    ensures Fold(ts).g == SeenGlobals(ts)
    decreases |ts|
  {
    if ts != [] {
      GlobalsPersist(ts[..|ts| - 1]);
    }
  }

  lemma {:induction false} LocalsReset(ts: seq<Token>)
    ensures Fold(ts).l == SeenLocals(ts)
    decreases |ts|
  {
    if ts != [] {
      var before, t := ts[..|ts| - 1], ts[|ts| - 1];
      LocalsReset(before);
      GlobalsPersist(before);
      hide LastGlobal, Fields;
      assert !t.kind.Main? ==> LocalsBegin(ts) == LocalsBegin(before);
    }
  }

  lemma {:induction false} FieldsAppendBits(g: Globals, l: Locals, attr: nat, offset: nat, before: seq<Field>, n: nat)
    requires g.page.Some?
    ensures TotalBits(before + Fields(g, l, attr, offset, n)) == TotalBits(before) + n * g.size
    decreases n
  {
    var fs := before + Fields(g, l, attr, offset, n);
    if n == 0 {
      assert fs == before;
    } else {
      FieldsAppendBits(g, l, attr, offset, before, n - 1);
      assert fs[..|fs| - 1] == before + Fields(g, l, attr, offset, n - 1);
      assert (n - 1) * g.size + g.size == n * g.size;
    }
  }

  /** The parser is the lookback reading: every Input item's fields are those its Globals seen
      so far and its Locals since the last Main item describe, after the bits before it. */
  lemma {:induction false} ParserIsLookback(ts: seq<Token>)
    ensures Fold(ts).fields == SeenFields(ts) && Fold(ts).offset == TotalBits(SeenFields(ts))
    decreases |ts|
  {
    if ts != [] {
      var before, t := ts[..|ts| - 1], ts[|ts| - 1];
      ParserIsLookback(before);
      GlobalsPersist(before);
      LocalsReset(before);
      var g, l := SeenGlobals(before), SeenLocals(before);
      hide SeenGlobals, SeenLocals, GlobalStep, LocalStep, Fields;
      if IsInput(t) && g.page.Some? {
        FieldsAppendBits(g, l, t.value, TotalBits(SeenFields(before)), SeenFields(before), g.count);
      } else {
        assert SeenFields(ts) == SeenFields(before) + [] == SeenFields(before);
      }
    }
  }

  // ----- layout -----

  function End(f: Field): (n: nat) { f.bitOffset + f.bitSize }

  /** Fields lie end to end from bit 0. */
  predicate EndToEnd(fs: seq<Field>)
  {
    if fs == [] then true
    else
      var n := |fs| - 1;
      EndToEnd(fs[..n]) && fs[n].bitOffset == if n == 0 then 0 else End(fs[n - 1])
  }

  lemma FieldPlace(g: Globals, l: Locals, attr: nat, offset: nat, i: nat)
    requires g.page.Some?
    ensures FieldAt(g, l, attr, offset, i).bitOffset == offset + i * g.size
    ensures FieldAt(g, l, attr, offset, i).bitSize == g.size
  {
    hide FieldUsage;
  }

  lemma {:induction false} FieldsEndToEnd(g: Globals, l: Locals, attr: nat, before: seq<Field>, n: nat)
    requires g.page.Some? && EndToEnd(before)
    ensures EndToEnd(before + Fields(g, l, attr, TotalBits(before), n))
    decreases n
  {
    hide FieldAt, TotalBits;
    var fs := before + Fields(g, l, attr, TotalBits(before), n);
    if n == 0 {
      assert fs == before;
    } else {
      FieldPlace(g, l, attr, TotalBits(before), n - 1);
      FieldsEndToEnd(g, l, attr, before, n - 1);
      var front := before + Fields(g, l, attr, TotalBits(before), n - 1);
      assert fs == front + [FieldAt(g, l, attr, TotalBits(before), n - 1)];
      EndIsTotal(front);
      FieldsAppendBits(g, l, attr, TotalBits(before), before, n - 1);
      assert fs[..|front|] == front && fs[|front|].bitOffset == TotalBits(front);
    }
  }

  lemma {:induction false} EndIsTotal(fs: seq<Field>)
    requires EndToEnd(fs)
    ensures TotalBits(fs) == if fs == [] then 0 else End(fs[|fs| - 1])
    decreases |fs|
  {
    if fs != [] {
      EndIsTotal(fs[..|fs| - 1]);
    }
  }

  /** For every descriptor, the fields lie end to end from bit 0. */
  lemma {:induction false} ParsedEndToEnd(ts: seq<Token>)
    ensures EndToEnd(SeenFields(ts))
    decreases |ts|
  {
    if ts != [] {
      var before, t := ts[..|ts| - 1], ts[|ts| - 1];
      ParsedEndToEnd(before);
      var g := SeenGlobals(before);
      hide SeenGlobals, SeenLocals;
      if IsInput(t) && g.page.Some? {
        FieldsEndToEnd(g, SeenLocals(before), t.value, SeenFields(before), g.count);
      } else {
        assert SeenFields(ts) == SeenFields(before) + [] == SeenFields(before);
      }
    }
  }

  /** ... so earlier fields end before later ones begin. */
  lemma {:induction false} FieldsDisjoint(fs: seq<Field>, i: nat, j: nat)
    requires EndToEnd(fs) && i < j < |fs|
    ensures End(fs[i]) <= fs[j].bitOffset
    decreases |fs|
  {
    var n := |fs| - 1;
    if j < n {
      FieldsDisjoint(fs[..n], i, j);
    } else if i < n - 1 {
      FieldsDisjoint(fs[..n], i, n - 1);
    }
  }

  /** `report_size_in_byte`. */
  function ReportBytes(fs: seq<Field>): (n: nat)
    requires fs != []
  {
    (End(fs[|fs| - 1]) + 7) / 8
  }

  /** A report of n bytes holds every field of a descriptor if and only if n is at least that. */
  lemma ReportHoldsIff(ts: seq<Token>, n: nat)
    requires SeenFields(ts) != []
    ensures (forall k :: 0 <= k < |SeenFields(ts)| ==> End(SeenFields(ts)[k]) <= 8 * n)
       <==> ReportBytes(SeenFields(ts)) <= n
  {
    var fs := SeenFields(ts);
    ParsedEndToEnd(ts);
    hide SeenFields, EndToEnd;
    forall k | 0 <= k < |fs|
      ensures End(fs[k]) <= End(fs[|fs| - 1])
    {
      if k < |fs| - 1 {
        FieldsDisjoint(fs, k, |fs| - 1);
      }
    }
  }

  // ----- decoding -----

  const U64: nat := 0x1_0000_0000_0000_0000

  /** `!x as i64` for a 64-bit word. */
  function NotAsI64(x: nat): (r: int)
    requires x < U64
  {
    AsI64(U64 - 1 - x)
  }

  function AsI64(x: nat): (r: int) { if x < 0x8000_0000_0000_0000 then x else x - U64 }

  /** `value_from_report`. */
  function ValueFromReport(f: Field, report: seq<Byte>): (r: Attempt<int>)
  {
    var v := Extract(report, f.bitOffset, f.bitSize);
    if v.Nothing? then Nothing
    else if v.Panic? then Panic
    else if f.bitSize >= 2 && ExtractBits(v.value, f.bitSize - 1, 1) == 1 then
      var low := ExtractBits(v.value, 0, f.bitSize - 1);
      Got(-NotAsI64(if low < U64 then low else 0) - 1)
    else Got(AsI64(v.value))
  }

  /** The field is inside the report, and narrow enough for the source's 128-bit shift. */
  predicate InReport(f: Field, report: seq<Byte>) { 0 < f.bitSize && End(f) <= 8 * |report| }
  predicate Narrow(f: Field) { Touched(f.bitOffset, f.bitSize) <= 16 }

  /** The field's bits, all of them. */
  function RawField(f: Field, report: seq<Byte>): (v: nat) { FieldOf(report, f.bitOffset, f.bitSize) }

  /** How many of a field's bits its value is made of: all of a single bit, all but the top one
      otherwise, at most 63. */
  function ValueBits(n: nat): (k: nat) { if n == 1 then 1 else if n == 0 then 0 else Min(63, n - 1) }

  /** The sign branch gives the low bits, not a signed number: for two bits and up the value is
      the field without its top bit.  Outside the report there is no value; a field inside it
      that touches more than 16 bytes panics. */
  lemma ValueIsUnsigned(f: Field, report: seq<Byte>)
    ensures ValueFromReport(f, report).Nothing? <==> !InReport(f, report)
    ensures ValueFromReport(f, report).Panic? <==> InReport(f, report) && !Narrow(f)
    ensures ValueFromReport(f, report).Got? ==>
              ValueFromReport(f, report).value == Bits.Low(RawField(f, report), ValueBits(f.bitSize))
  {
    hide Bits.Low, Bits.Shr, Bits.Pow2, LittleEndian, ExtractBits;
    if InReport(f, report) && Narrow(f) {
      var n, v := f.bitSize, Extract(report, f.bitOffset, f.bitSize).value;
      SliceBound(report, f.bitOffset, n);
      Bits.LowOfLow(Bits.Shr(LittleEndian(report), f.bitOffset), n, Min(63, n));
      assert v == Bits.Low(RawField(f, report), Min(63, n));
      if n >= 2 {
        ExtractBitsValue(v, n - 1, 1);
        ExtractBitsValue(v, 0, n - 1);
        TopBit(v, n);
        Bits.LowOfLow(RawField(f, report), Min(63, n), ValueBits(n));
      }
    }
  }

  /** The two's-complement reading of an n-bit field. */
  function TwosComplement(v: nat, n: nat): (r: int)
    requires 0 < n && v < Bits.Pow2(n)
  {
    if v < Bits.Pow2(n - 1) then v else v - Bits.Pow2(n)
  }

  /** The bit from which on a field must be clear to be read as the number it stands for: the
      top bit of a field of up to 64 bits. */
  function SignBit(n: nat): (k: nat)
    requires 0 < n
  {
    Min(63, n - 1)
  }

  /** A value is the two's-complement reading of the field if and only if the field's bits from
      the sign bit up are clear. */
  lemma ValueIsSignedIff(f: Field, report: seq<Byte>)
    requires InReport(f, report) && Narrow(f)
    ensures ValueFromReport(f, report).Got?
    ensures ValueFromReport(f, report).value == TwosComplement(RawField(f, report), f.bitSize)
       <==> Bits.Shr(RawField(f, report), SignBit(f.bitSize)) == 0
  {
    hide Bits.Low, Bits.Shr, Bits.Pow2, LittleEndian, ValueFromReport;
    ValueIsUnsigned(f, report);
    SignedIff(RawField(f, report), f.bitSize);
  }

  lemma PowZero()
    ensures Bits.Pow2(0) == 1
  {
  }

  lemma SignedIff(v: nat, n: nat)
    requires 0 < n && v < Bits.Pow2(n)
    ensures Bits.Low(v, ValueBits(n)) == TwosComplement(v, n) <==> Bits.Shr(v, SignBit(n)) == 0
  {
    hide Bits.Low, Bits.Shr, Bits.Pow2;
    ShrZeroIff(v, SignBit(n));
    Bits.LowOfSmall(v, ValueBits(n));
    Bits.Pow2Monotone(SignBit(n), n - 1);
    Bits.Pow2Next(n - 1);
    if n == 1 {
      LowOne(v);
      assert Bits.Pow2(0) == 1 by { PowZero(); }
    }
  }

  /** Where it fails: the two-bit field 0b11 decodes to 1, not to -1. */
  lemma TwoOnesDecodeToOne(f: Field, report: seq<Byte>)
    requires f.bitOffset == 0 && f.bitSize == 2 && report == [3]
    ensures ValueFromReport(f, report) == Got(1)
    ensures RawField(f, report) == 3 && TwosComplement(RawField(f, report), 2) == -1
  {
    OneByte(3);
    assert Bits.Shr(3, 0) == 3;
    assert Bits.Low(3, 2) == 3 && Bits.Low(3, 1) == 1 && Bits.Pow2(1) == 2 && Bits.Pow2(2) == 4;
    hide Bits.Low, Bits.Shr, Bits.Pow2, LittleEndian, ValueFromReport;
    ValueIsUnsigned(f, report);
  }

  lemma SliceBound(bytes: seq<Byte>, shift: nat, width: nat)
    ensures var r := Extract(bytes, shift, width);
            r.Got? ==> r.value < Bits.Pow2(Min(63, width)) && r.value < 0x8000_0000_0000_0000
  {
    hide LittleEndian, Bits.Shr, Bits.Low, Bits.Pow2;
    Bits.Pow2Monotone(Min(63, width), 63);
    Pow63();
  }

  lemma Pow63()
    ensures Bits.Pow2(63) == 0x8000_0000_0000_0000
  {
    hide Bits.Pow2;
    PowSmall();
    Bits.Pow2Add(9, 9);
    Bits.Pow2Add(18, 18);
    Bits.Pow2Add(36, 18);
    Bits.Pow2Add(54, 9);
  }

  lemma PowSmall()
    ensures Bits.Pow2(9) == 512
  {
  }

  /** A number below 2^min(63, n), n >= 2, by its bit n - 1. */
  lemma TopBit(v: nat, n: nat)
    requires 2 <= n && v < Bits.Pow2(Min(63, n))
    ensures var bit := Bits.Low(if n - 1 < 64 then Bits.Shr(v, n - 1) else 0, 1);
            bit <= 1 && (bit == 0 ==> v == Bits.Low(v, n - 1))
    ensures Bits.Low(Bits.Shr(v, 0), Min(63, n - 1)) == Bits.Low(v, n - 1)
    ensures Bits.Low(v, n - 1) <= v
  {
    var k := Min(63, n);
    hide Bits.Pow2;
    assert Bits.Shr(v, 0) == v;
    hide Bits.Shr;
    if n <= 63 {
      TopBitSet(v, n);
    } else {
      Bits.Pow2Monotone(63, n - 1);
      Bits.LowOfSmall(v, n - 1);
      Bits.LowOfSmall(v, 63);
    }
    LowOne(if n - 1 < 64 then Bits.Shr(v, n - 1) else 0);
  }

  lemma LowOne(x: nat)
    ensures Bits.Low(x, 1) == x % 2
  {
  }

  lemma {:induction false} TopBitSet(v: nat, n: nat)
    requires 1 <= n && v < Bits.Pow2(n)
    ensures Bits.Shr(v, n - 1) <= 1
    ensures Bits.Shr(v, n - 1) == 0 ==> Bits.Low(v, n - 1) == v
    decreases n
  {
    if n > 1 {
      TopBitSet(v / 2, n - 1);
    }
  }

  /** Every field of every parsed descriptor decodes from every report of the computed length
      if and only if it has a width and touches at most 16 bytes. */
  lemma ParsedFieldsDecode(ts: seq<Token>, report: seq<Byte>, k: nat)
    requires k < |SeenFields(ts)| && |report| >= ReportBytes(SeenFields(ts))
    ensures ValueFromReport(SeenFields(ts)[k], report).Got?
       <==> SeenFields(ts)[k].bitSize > 0 && Narrow(SeenFields(ts)[k])
  {
    var fs := SeenFields(ts);
    ParsedEndToEnd(ts);
    if k < |fs| - 1 {
      FieldsDisjoint(fs, k, |fs| - 1);
    }
    ValueIsUnsigned(fs[k], report);
  }

  /** What `request_hid_report` fetches, whatever the descriptor says. */
  const DRIVER_REPORT_BYTES: nat := 8

  /** From the driver's report no field panics, and one decodes if and only if it has a width
      and ends by bit 64. */
  lemma DriverReportDecodes(f: Field, report: seq<Byte>)
    requires |report| == DRIVER_REPORT_BYTES
    ensures !ValueFromReport(f, report).Panic?
    ensures ValueFromReport(f, report).Got? <==> 0 < f.bitSize && End(f) <= 64
  {
    ValueIsUnsigned(f, report);
  }

  /** A descriptor with one Input item of 200 bits: Usage Page, Report Size, Report Count,
      Input. */
  const WIDE: seq<Byte> := [0x05, 0x01, 0x75, 0xC8, 0x95, 0x01, 0x81, 0x02]

  /** An item with one byte of data. */
  lemma OneByteItem(bytes: seq<Byte>)
    requires |bytes| >= 2 && bytes[0] % 4 == 1 && KindOf(bytes[0]).Some?
    ensures Tokens(bytes) == [Token(KindOf(bytes[0]).value, bytes[0] / 16, bytes[1])] + Tokens(bytes[2..])
  {
    NextToken(bytes);
    assert bytes[1..2] == [bytes[1]];
    OneByte(bytes[1]);
    hide Tokens, LittleEndian;
  }

  lemma WideTokens()
    ensures Tokens(WIDE) == [Token(Global, 0, 1), Token(Global, 7, 200), Token(Global, 9, 1), Token(Main, 8, 2)]
  {
    hide Tokens;
    OneByteItem(WIDE);
    OneByteItem(WIDE[2..]);
    OneByteItem(WIDE[4..]);
    OneByteItem(WIDE[6..]);
    NextToken(WIDE[8..]);
    assert WIDE[2..][2..] == WIDE[4..] && WIDE[4..][2..] == WIDE[6..] && WIDE[6..][2..] == WIDE[8..] == [];
  }

  const WIDE_FIELD: Field := Field(UnknownUsage(0), 200, true, true, 0, 0, 0)

  lemma WideGlobals(a: Token, b: Token, c: Token)
    requires a == Token(Global, 0, 1) && b == Token(Global, 7, 200) && c == Token(Global, 9, 1)
    ensures Fold([a, b, c]) == State(Globals(Some(GenericDesktop), 200, 1, 0, 0), NO_LOCALS, 0, [])
  {
    hide Fold, Fields;
    FoldNothing();
    FoldAppend([], a);
    FoldAppend([a], b);
    FoldAppend([a, b], c);
    assert [] + [a] == [a] && [a] + [b] == [a, b] && [a, b] + [c] == [a, b, c];
  }

  /** It parses to one field, which panics on every report that holds it. */
  lemma WideFieldPanics(report: seq<Byte>)
    requires |report| >= 25
    ensures Fold(Tokens(WIDE)).fields == [WIDE_FIELD] && ReportBytes([WIDE_FIELD]) == 25
    ensures ValueFromReport(WIDE_FIELD, report) == Panic
  {
    hide Tokens, Fold, ValueFromReport, Fields;
    WideTokens();
    var a, b, c, d := Token(Global, 0, 1), Token(Global, 7, 200), Token(Global, 9, 1), Token(Main, 8, 2);
    WideGlobals(a, b, c);
    FoldAppend([a, b, c], d);
    assert [a, b, c] + [d] == [a, b, c, d];
    OneField(Fold([a, b, c]).g, NO_LOCALS, 2, 0);
    WidePanics(WIDE_FIELD, report);
  }

  lemma WidePanics(f: Field, report: seq<Byte>)
    requires InReport(f, report) && !Narrow(f)
    ensures ValueFromReport(f, report) == Panic
  {
    ValueIsUnsigned(f, report);
  }

  lemma OneField(g: Globals, l: Locals, attr: nat, offset: nat)
    requires g.page.Some?
    ensures Fields(g, l, attr, offset, 1) == [FieldAt(g, l, attr, offset, 0)]
  {
    assert Fields(g, l, attr, offset, 0) == [];
  }

  /** A field's raw bits, as extracted. */
  function Raw(f: Field, report: seq<Byte>): (v: nat)
  {
    var s := Extract(report, f.bitOffset, f.bitSize);
    if s.Got? then s.value else 0
  }

  /** The fields' raw values put back at their offsets. */
  function Reassembled(fs: seq<Field>, report: seq<Byte>): (v: nat)
  {
    if fs == [] then 0
    else Reassembled(fs[..|fs| - 1], report) + Bits.Shl(Raw(fs[|fs| - 1], report), fs[|fs| - 1].bitOffset)
  }

  /** Nothing of a report is lost or read twice: with fields of at most 63 bits, the raw values
      at their offsets are exactly the report's bits up to the last field's end. */
  lemma {:induction false} FieldsReassemble(fs: seq<Field>, report: seq<Byte>)
    requires EndToEnd(fs) && forall k :: 0 <= k < |fs| ==> fs[k].bitSize <= 63
    requires fs != [] ==> End(fs[|fs| - 1]) <= 8 * |report|
    ensures Reassembled(fs, report) == Bits.Low(LittleEndian(report), TotalBits(fs))
    decreases |fs|
  {
    hide LittleEndian, Bits.Shr, Bits.Shl, Bits.Low, Raw;
    if fs == [] {
      LowNothing(LittleEndian(report));
    } else {
      var n := |fs| - 1;
      var front, f := fs[..n], fs[n];
      FieldsReassemble(front, report);
      EndIsTotal(front);
      EndIsTotal(fs);
      RawBits(f, report);
      LowSplit(LittleEndian(report), f.bitOffset, f.bitSize);
    }
  }

  lemma LowNothing(x: nat)
    ensures Bits.Low(x, 0) == 0
  {
  }

  lemma RawBits(f: Field, report: seq<Byte>)
    requires f.bitSize <= 63 && End(f) <= 8 * |report|
    ensures Raw(f, report) == Bits.Low(Bits.Shr(LittleEndian(report), f.bitOffset), f.bitSize)
  {
    hide LittleEndian, Bits.Shr;
  }

  lemma {:induction false} LowSplit(x: nat, a: nat, b: nat)
    ensures Bits.Low(x, a + b) == Bits.Low(x, a) + Bits.Shl(Bits.Low(Bits.Shr(x, a), b), a)
    decreases a
  {
    if a > 0 {
      LowSplit(x / 2, a - 1, b);
    }
  }

  /** `mapped_range_from_report` onto a screen axis of `width` pixels; a panic stays one. */
  function MappedCoordinate(f: Field, report: seq<Byte>, width: int): (r: Attempt<Result<int>>)
  {
    var v := ValueFromReport(f, report);
    if v.Panic? then Panic
    else if v.Nothing? then Got(Err("value was empty"))
    else Got(Ranges.MapValue(Ranges.Range(f.logicalMin, f.logicalMax), Ranges.Range(0, width - 1), v.value))
  }

  /** The call panics exactly on a field of the report that touches more than 16 bytes, and errs
      exactly when the field is absent or its value is outside the logical range.  A coordinate
      that is produced is on the screen: the value's exact proportion of the axis, rounded down,
      so that the range's ends are the first and the last pixel. */
  lemma CoordinateOnScreen(f: Field, report: seq<Byte>, width: int)
    requires 1 <= width <= Ranges.I64_MAX
    ensures MappedCoordinate(f, report, width).Panic? <==> InReport(f, report) && !Narrow(f)
    ensures !MappedCoordinate(f, report, width).Nothing?
    ensures MappedCoordinate(f, report, width).Got? ==>
              var r := MappedCoordinate(f, report, width).value;
              && (r.Ok? <==> InReport(f, report)
                             && f.logicalMin <= Bits.Low(RawField(f, report), ValueBits(f.bitSize)) <= f.logicalMax)
              && (r.Ok? ==> 0 <= r.value <= width - 1
                            && IsProportion(f, Bits.Low(RawField(f, report), ValueBits(f.bitSize)), width, r.value))
  {
    var v := ValueFromReport(f, report);
    ValueIsUnsigned(f, report);
    hide ValueFromReport, Ranges.MapValue, RawField, ValueBits;
    if v.Got? {
      Ranges.MapValueFacts(Ranges.Range(f.logicalMin, f.logicalMax), Ranges.Range(0, width - 1), v.value);
    }
  }

  /** Pixel c of an axis is where value v of the field's logical range lies on it. */
  predicate IsProportion(f: Field, v: nat, width: int, c: int)
  {
    var range := f.logicalMax - f.logicalMin;
    && (range == 0 ==> c == 0)
    && (range > 0 ==> c * range <= (v - f.logicalMin) * (width - 1) < (c + 1) * range)
    && (range > 0 && v == f.logicalMin ==> c == 0)
    && (range > 0 && v == f.logicalMax ==> c == width - 1)
  }

  /** A larger value never gives a smaller coordinate. */
  lemma CoordinateMonotone(f: Field, r1: seq<Byte>, r2: seq<Byte>, width: int)
    requires 1 <= width <= Ranges.I64_MAX
    requires MappedCoordinate(f, r1, width).Got? && MappedCoordinate(f, r1, width).value.Ok?
    requires MappedCoordinate(f, r2, width).Got? && MappedCoordinate(f, r2, width).value.Ok?
    requires Bits.Low(RawField(f, r1), ValueBits(f.bitSize)) <= Bits.Low(RawField(f, r2), ValueBits(f.bitSize))
    ensures MappedCoordinate(f, r1, width).value.value <= MappedCoordinate(f, r2, width).value.value
  {
    ValueIsUnsigned(f, r1);
    ValueIsUnsigned(f, r2);
    CoordinateOnScreen(f, r1, width);
    CoordinateOnScreen(f, r2, width);
    var v, w := ValueFromReport(f, r1).value, ValueFromReport(f, r2).value;
    hide ValueFromReport, Ranges.MapValue, RawField, ValueBits, Bits.Low;
    Ranges.MapValueMonotone(Ranges.Range(f.logicalMin, f.logicalMax), Ranges.Range(0, width - 1), v, w);
  }
}
