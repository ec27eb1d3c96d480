/** Two report descriptors by their bytes, with the fields that the parser of tablet.rs makes of
    them: a tablet with three buttons, absolute X and Y and a relative wheel, and a vendor page. */
module TabletReport {
  import opened Results
  import opened BitSlice
  import opened HidReport

  /** The fold over the items of the remaining bytes. */
  function ParseFrom(s: State, bytes: seq<Byte>): (s': State)
    decreases |bytes|
  {
    if bytes == [] || KindOf(bytes[0]).None? then s
    else ParseFrom(Step(s, TokenOf(bytes, KindOf(bytes[0]).value)), bytes[1 + DataLen(bytes)..])
  }

  lemma {:induction false} ParseIsFold(seen: seq<Token>, bytes: seq<Byte>)
    ensures ParseFrom(Fold(seen), bytes) == Fold(seen + Tokens(bytes))
    decreases |bytes|
  {
    hide Step, TokenOf, DataLen;
    NextToken(bytes);
    if bytes == [] || KindOf(bytes[0]).None? {
      assert seen + [] == seen;
    } else {
      var t, rest := TokenOf(bytes, KindOf(bytes[0]).value), bytes[1 + DataLen(bytes)..];
      FoldAppend(seen, t);
      ParseIsFold(seen + [t], rest);
      assert seen + [t] + Tokens(rest) == seen + ([t] + Tokens(rest));
    }
  }

  /** One item at position k, with n bytes of data whose value is v. */
  lemma Item(s: State, b: seq<Byte>, k: nat, n: nat, kind: Kind, v: nat)
    requires k + 1 + n <= |b| && DataSize(b[k]) == n && KindOf(b[k]) == Some(kind)
    requires LittleEndian(b[k + 1..k + 1 + n]) == v
    ensures ParseFrom(s, b[k..]) == ParseFrom(Step(s, Token(kind, b[k] / 16, v)), b[k + 1 + n..])
  {
    hide Step, LittleEndian;
    var bytes := b[k..];
    assert DataLen(bytes) == n && bytes[1..1 + n] == b[k + 1..k + 1 + n] && bytes[1 + n..] == b[k + 1 + n..];
  }

  /** ... with one byte of data. */
  lemma Short(s: State, b: seq<Byte>, k: nat, kind: Kind)
    requires k + 2 <= |b| && b[k] % 4 == 1 && KindOf(b[k]) == Some(kind)
    ensures ParseFrom(s, b[k..]) == ParseFrom(Step(s, Token(kind, b[k] / 16, b[k + 1])), b[k + 2..])
  {
    hide Step;
    OneByte(b[k + 1]);
    assert b[k + 1..k + 2] == [b[k + 1]];
    Item(s, b, k, 1, kind, b[k + 1]);
  }

  lemma LowestFirst(bytes: seq<Byte>)
    requires bytes != []
    ensures LittleEndian(bytes) == bytes[0] + 256 * LittleEndian(bytes[1..])
  {
    FirstByte(bytes);
    ByteShift(LittleEndian(bytes[1..]));
  }

  function Pair(low: nat, high: nat): (v: nat) { low + 256 * high }

  /** ... with two bytes, lowest first. */
  lemma Medium(s: State, b: seq<Byte>, k: nat, kind: Kind)
    requires k + 3 <= |b| && b[k] % 4 == 2 && KindOf(b[k]) == Some(kind)
    ensures ParseFrom(s, b[k..]) == ParseFrom(Step(s, Token(kind, b[k] / 16, Pair(b[k + 1], b[k + 2]))), b[k + 3..])
  {
    hide Step, LittleEndian;
    var data := b[k + 1..k + 3];
    LowestFirst(data);
    OneByte(b[k + 2]);
    assert data[1..] == [b[k + 2]];
    Item(s, b, k, 2, kind, Pair(b[k + 1], b[k + 2]));
  }

  /** ... with four bytes, the upper two zero. */
  lemma Long(s: State, b: seq<Byte>, k: nat, kind: Kind)
    requires k + 5 <= |b| && b[k] % 4 == 3 && KindOf(b[k]) == Some(kind) && b[k + 3] == b[k + 4] == 0
    ensures ParseFrom(s, b[k..]) == ParseFrom(Step(s, Token(kind, b[k] / 16, Pair(b[k + 1], b[k + 2]))), b[k + 5..])
  {
    hide Step, LittleEndian;
    var data := b[k + 1..k + 5];
    LowestFirst(data);
    LowestFirst(data[1..]);
    LowestFirst(data[2..]);
    OneByte(0);
    assert data[1..][1..] == data[2..] && data[2..][1..] == [b[k + 4]];
    Item(s, b, k, 4, kind, Pair(b[k + 1], b[k + 2]));
  }

  lemma UpToThree(g: Globals, l: Locals, attr: nat, offset: nat)
    requires g.page.Some?
    ensures Fields(g, l, attr, offset, 1) == [FieldAt(g, l, attr, offset, 0)]
    ensures Fields(g, l, attr, offset, 2) == [FieldAt(g, l, attr, offset, 0), FieldAt(g, l, attr, offset, 1)]
    ensures Fields(g, l, attr, offset, 3)
         == [FieldAt(g, l, attr, offset, 0), FieldAt(g, l, attr, offset, 1), FieldAt(g, l, attr, offset, 2)]
  {
    OneField(g, l, attr, offset);
    hide FieldAt;
  }

  // ----- a tablet -----

  /** Generic Desktop, a mouse's application collection, a pointer's physical one. */
  const COLLECTIONS: seq<Byte> := [0x05, 0x01, 0x09, 0x02, 0xA1, 0x01, 0x09, 0x01, 0xA1, 0x00]
  /** Three buttons of one bit: the usages, then the item. */
  const BUTTON_USAGES: seq<Byte> := [0x05, 0x09, 0x19, 0x01, 0x29, 0x03, 0x15, 0x00]
  const BUTTON_ITEM: seq<Byte> := [0x25, 0x01, 0x95, 0x03, 0x75, 0x01, 0x81, 0x02]
  /** Five constant bits. */
  const PADDING: seq<Byte> := [0x95, 0x01, 0x75, 0x05, 0x81, 0x01]
  /** X and Y, 16 bits each, from 0 to 32767, with a physical maximum that is not used. */
  const AXIS_USAGES: seq<Byte> := [0x05, 0x01, 0x09, 0x30, 0x09, 0x31]
  const AXIS_ITEM: seq<Byte> :=
    [0x26, 0xFF, 0x7F, 0x47, 0xFF, 0x7F, 0x00, 0x00, 0x75, 0x10, 0x95, 0x02, 0x81, 0x02]
  /** A wheel of eight bits, relative, and the end of both collections. */
  const WHEEL: seq<Byte> := [0x09, 0x38, 0x15, 0x81, 0x25, 0x7F, 0x75, 0x08, 0x95, 0x01, 0x81, 0x06, 0xC0, 0xC0]

  const TABLET: seq<Byte> :=
    COLLECTIONS + (BUTTON_USAGES + (BUTTON_ITEM + (PADDING + (AXIS_USAGES + (AXIS_ITEM + WHEEL)))))

  const BUTTON_FIELDS: seq<Field> :=
    [Field(Button(1), 1, true, true, 0, 0, 1),
     Field(Button(2), 1, true, true, 1, 0, 1),
     Field(Button(3), 1, true, true, 2, 0, 1)]
  const PADDING_FIELDS: seq<Field> := [Field(HidReport.Constant, 5, false, true, 3, 0, 1)]
  const AXIS_FIELDS: seq<Field> :=
    [Field(HidReport.X, 16, true, true, 8, 0, 32767), Field(HidReport.Y, 16, true, true, 24, 0, 32767)]
  const WHEEL_FIELDS: seq<Field> := [Field(HidReport.Wheel, 8, true, false, 40, 129, 127)]

  const AFTER_COLLECTIONS: State := State(Globals(Some(GenericDesktop), 0, 0, 0, 0), NO_LOCALS, 0, [])
  const BUTTONS_NAMED: State :=
    State(Globals(Some(ButtonPage), 0, 0, 0, 0), Locals([], Some(1), Some(3)), 0, [])
  const AFTER_BUTTONS: State := State(Globals(Some(ButtonPage), 1, 3, 0, 1), NO_LOCALS, 3, BUTTON_FIELDS)
  const AFTER_PADDING: State :=
    State(Globals(Some(ButtonPage), 5, 1, 0, 1), NO_LOCALS, 8, BUTTON_FIELDS + PADDING_FIELDS)
  const AXES_NAMED: State :=
    State(Globals(Some(GenericDesktop), 5, 1, 0, 1), Locals([HidReport.X, HidReport.Y], None, None), 8,
          BUTTON_FIELDS + PADDING_FIELDS)
  const AFTER_AXES: State :=
    State(Globals(Some(GenericDesktop), 16, 2, 0, 32767), NO_LOCALS, 40, BUTTON_FIELDS + PADDING_FIELDS + AXIS_FIELDS)

  lemma ParseCollections(tail: seq<Byte>)
    ensures ParseFrom(START, COLLECTIONS + tail) == ParseFrom(AFTER_COLLECTIONS, tail)
  {
    hide ParseFrom, Fields;
    var b, s := COLLECTIONS + tail, START;
    assert b[0..] == b && b[10..] == tail;
    Short(s, b, 0, Global);
    s := Step(s, Token(Global, 0, 1));
    Short(s, b, 2, Local);
    s := Step(s, Token(Local, 0, 2));
    Short(s, b, 4, Main);
    s := Step(s, Token(Main, 10, 1));
    Short(s, b, 6, Local);
    s := Step(s, Token(Local, 0, 1));
    Short(s, b, 8, Main);
    s := Step(s, Token(Main, 10, 0));
  }

  lemma NameButtons(tail: seq<Byte>)
    ensures ParseFrom(AFTER_COLLECTIONS, BUTTON_USAGES + tail) == ParseFrom(BUTTONS_NAMED, tail)
  {
    hide ParseFrom, Fields;
    var b, s := BUTTON_USAGES + tail, AFTER_COLLECTIONS;
    assert b[0..] == b && b[8..] == tail;
    Short(s, b, 0, Global);
    s := Step(s, Token(Global, 0, 9));
    Short(s, b, 2, Local);
    s := Step(s, Token(Local, 1, 1));
    Short(s, b, 4, Local);
    s := Step(s, Token(Local, 2, 3));
    Short(s, b, 6, Global);
    s := Step(s, Token(Global, 1, 0));
  }

  lemma ParseButtons(tail: seq<Byte>)
    ensures ParseFrom(BUTTONS_NAMED, BUTTON_ITEM + tail) == ParseFrom(AFTER_BUTTONS, tail)
  {
    hide ParseFrom, Fields;
    var b, s := BUTTON_ITEM + tail, BUTTONS_NAMED;
    assert b[0..] == b && b[8..] == tail;
    Short(s, b, 0, Global);
    s := Step(s, Token(Global, 2, 1));
    Short(s, b, 2, Global);
    s := Step(s, Token(Global, 9, 3));
    Short(s, b, 4, Global);
    s := Step(s, Token(Global, 7, 1));
    Short(s, b, 6, Main);
    UpToThree(s.g, s.l, 2, 0);
    s := Step(s, Token(Main, 8, 2));
    assert s.fields == BUTTON_FIELDS;
  }

  lemma ParsePadding(tail: seq<Byte>)
    ensures ParseFrom(AFTER_BUTTONS, PADDING + tail) == ParseFrom(AFTER_PADDING, tail)
  {
    hide ParseFrom, Fields;
    var b, s := PADDING + tail, AFTER_BUTTONS;
    assert b[0..] == b && b[6..] == tail;
    Short(s, b, 0, Global);
    s := Step(s, Token(Global, 9, 1));
    Short(s, b, 2, Global);
    s := Step(s, Token(Global, 7, 5));
    Short(s, b, 4, Main);
    UpToThree(s.g, s.l, 1, 3);
    s := Step(s, Token(Main, 8, 1));
  }

  lemma NameAxes(tail: seq<Byte>)
    ensures ParseFrom(AFTER_PADDING, AXIS_USAGES + tail) == ParseFrom(AXES_NAMED, tail)
  {
    hide ParseFrom, Fields;
    var b, s := AXIS_USAGES + tail, AFTER_PADDING;
    assert b[0..] == b && b[6..] == tail;
    Short(s, b, 0, Global);
    s := Step(s, Token(Global, 0, 1));
    Short(s, b, 2, Local);
    s := Step(s, Token(Local, 0, 0x30));
    Short(s, b, 4, Local);
    s := Step(s, Token(Local, 0, 0x31));
    assert s.l.queue == [HidReport.X, HidReport.Y];
  }

  lemma AxisSteps()
    ensures var s := Step(AXES_NAMED, Token(Global, 2, 32767));
            var s := Step(s, Token(Global, 4, 32767));
            var s := Step(s, Token(Global, 7, 16));
            var s := Step(s, Token(Global, 9, 2));
            var s := Step(s, Token(Main, 8, 2));
            s == AFTER_AXES
  {
    hide Fields;
    var s := AXES_NAMED;
    s := Step(s, Token(Global, 2, 32767));
    s := Step(s, Token(Global, 4, 32767));
    s := Step(s, Token(Global, 7, 16));
    s := Step(s, Token(Global, 9, 2));
    UpToThree(s.g, s.l, 2, 8);
    s := Step(s, Token(Main, 8, 2));
  }

  lemma ParseAxes(tail: seq<Byte>)
    ensures ParseFrom(AXES_NAMED, AXIS_ITEM + tail) == ParseFrom(AFTER_AXES, tail)
  {
    hide ParseFrom, LittleEndian, Step;
    var b, s := AXIS_ITEM + tail, AXES_NAMED;
    assert b[0..] == b && b[14..] == tail;
    Medium(s, b, 0, Global);
    s := Step(s, Token(Global, 2, 32767));
    Long(s, b, 3, Global);
    s := Step(s, Token(Global, 4, 32767));
    Short(s, b, 8, Global);
    s := Step(s, Token(Global, 7, 16));
    Short(s, b, 10, Global);
    s := Step(s, Token(Global, 9, 2));
    Short(s, b, 12, Main);
    s := Step(s, Token(Main, 8, 2));
    AxisSteps();
  }

  lemma WheelSteps()
    ensures var s := Step(AFTER_AXES, Token(Local, 0, 0x38));
            var s := Step(s, Token(Global, 1, 129));
            var s := Step(s, Token(Global, 2, 127));
            var s := Step(s, Token(Global, 7, 8));
            var s := Step(s, Token(Global, 9, 1));
            var s := Step(s, Token(Main, 8, 6));
            s.fields == BUTTON_FIELDS + PADDING_FIELDS + AXIS_FIELDS + WHEEL_FIELDS
  {
    hide Fields;
    var s := AFTER_AXES;
    s := Step(s, Token(Local, 0, 0x38));
    s := Step(s, Token(Global, 1, 129));
    s := Step(s, Token(Global, 2, 127));
    s := Step(s, Token(Global, 7, 8));
    s := Step(s, Token(Global, 9, 1));
    UpToThree(s.g, s.l, 6, 40);
    s := Step(s, Token(Main, 8, 6));
  }

  lemma ParseWheel()
    ensures ParseFrom(AFTER_AXES, WHEEL).fields == BUTTON_FIELDS + PADDING_FIELDS + AXIS_FIELDS + WHEEL_FIELDS
  {
    hide ParseFrom, LittleEndian, Step;
    var b, s := WHEEL, AFTER_AXES;
    assert b[0..] == b;
    Short(s, b, 0, Local);
    s := Step(s, Token(Local, 0, 0x38));
    Short(s, b, 2, Global);
    s := Step(s, Token(Global, 1, 129));
    Short(s, b, 4, Global);
    s := Step(s, Token(Global, 2, 127));
    Short(s, b, 6, Global);
    s := Step(s, Token(Global, 7, 8));
    Short(s, b, 8, Global);
    s := Step(s, Token(Global, 9, 1));
    Short(s, b, 10, Main);
    s := Step(s, Token(Main, 8, 6));
    EndOfItems(s, b);
    WheelSteps();
  }

  /** Items without data, here the two that end a collection, and the end of the bytes. */
  lemma EndOfItems(s: State, b: seq<Byte>)
    requires |b| == 14 && b[12] == 0xC0 && b[13] == 0xC0
    ensures ParseFrom(s, b[12..]).fields == s.fields
  {
    Bare(s, b, 12);
    var s' := Step(s, Token(Main, 12, 0));
    Bare(s', b, 13);
    assert b[14..] == [];
    hide KindOf, DataSize;
  }

  lemma Bare(s: State, b: seq<Byte>, k: nat)
    requires k < |b| && b[k] == 0xC0
    ensures ParseFrom(s, b[k..]) == ParseFrom(Step(s, Token(Main, 12, 0)), b[k + 1..])
  {
    hide Step;
    NothingIsZero();
    assert b[k + 1..k + 1] == [];
    hide LittleEndian;
    Item(s, b, k, 0, Main, 0);
  }

  lemma NothingIsZero()
    ensures LittleEndian([]) == 0
  {
  }

  /** The tablet's fields, one after another: the buttons 1, 2 and 3, padding, X, Y and the wheel,
      with their widths, flags, places and logical ranges (the range of the wheel as unsigned
      numbers, its lower bound above its upper). */
  lemma TabletFields()
    ensures Fold(Tokens(TABLET)).fields ==
            [Field(Button(1), 1, true, true, 0, 0, 1),
             Field(Button(2), 1, true, true, 1, 0, 1),
             Field(Button(3), 1, true, true, 2, 0, 1),
             Field(HidReport.Constant, 5, false, true, 3, 0, 1),
             Field(HidReport.X, 16, true, true, 8, 0, 32767),
             Field(HidReport.Y, 16, true, true, 24, 0, 32767),
             Field(HidReport.Wheel, 8, true, false, 40, 129, 127)]
  {
    hide Tokens, Fold, ParseFrom;
    FoldNothing();
    ParseIsFold([], TABLET);
    assert [] + Tokens(TABLET) == Tokens(TABLET);
    ParseCollections(BUTTON_USAGES + (BUTTON_ITEM + (PADDING + (AXIS_USAGES + (AXIS_ITEM + WHEEL)))));
    NameButtons(BUTTON_ITEM + (PADDING + (AXIS_USAGES + (AXIS_ITEM + WHEEL))));
    ParseButtons(PADDING + (AXIS_USAGES + (AXIS_ITEM + WHEEL)));
    ParsePadding(AXIS_USAGES + (AXIS_ITEM + WHEEL));
    NameAxes(AXIS_ITEM + WHEEL);
    ParseAxes(WHEEL);
    ParseWheel();
  }

  // ----- other pages -----

  /** Pointer and Mouse, without a width. */
  const POINTERS: seq<Byte> := [0x05, 0x01, 0x09, 0x01, 0x09, 0x02, 0x95, 0x02, 0x81, 0x00]
  /** A vendor page with one usage for two fields. */
  const VENDOR: seq<Byte> := [0x06, 0x00, 0xFF, 0x09, 0x30, 0x81, 0x00]
  /** Two fields for the one button 3. */
  const BUTTON_THREE: seq<Byte> := [0x05, 0x09, 0x19, 0x03, 0x29, 0x03, 0x81, 0x00]
  /** An item of the reserved type, and another input. */
  const RESERVED: seq<Byte> := [0x0D, 0x00, 0x81, 0x00]

  const POINTER_FIELDS: seq<Field> :=
    [Field(Pointer, 0, false, true, 0, 0, 0), Field(Mouse, 0, false, true, 0, 0, 0)]
  const VENDOR_FIELDS: seq<Field> :=
    [Field(UnknownUsage(0x30), 0, false, true, 0, 0, 0), Field(UnknownUsage(0), 0, false, true, 0, 0, 0)]
  const BUTTON_THREE_FIELDS: seq<Field> :=
    [Field(Button(3), 0, false, true, 0, 0, 0), Field(UnknownUsage(4), 0, false, true, 0, 0, 0)]

  const AFTER_POINTERS: State := State(Globals(Some(GenericDesktop), 0, 2, 0, 0), NO_LOCALS, 0, POINTER_FIELDS)
  const AFTER_VENDOR: State :=
    State(Globals(Some(UnknownPage(0xFF00)), 0, 2, 0, 0), NO_LOCALS, 0, POINTER_FIELDS + VENDOR_FIELDS)
  const AFTER_BUTTON_THREE: State :=
    State(Globals(Some(ButtonPage), 0, 2, 0, 0), NO_LOCALS, 0, POINTER_FIELDS + VENDOR_FIELDS + BUTTON_THREE_FIELDS)

  lemma PointerSteps()
    ensures var s := Step(START, Token(Global, 0, 1));
            var s := Step(s, Token(Local, 0, 1));
            var s := Step(s, Token(Local, 0, 2));
            var s := Step(s, Token(Global, 9, 2));
            var s := Step(s, Token(Main, 8, 0));
            s == AFTER_POINTERS
  {
    hide Fields;
    var s := START;
    s := Step(s, Token(Global, 0, 1));
    s := Step(s, Token(Local, 0, 1));
    s := Step(s, Token(Local, 0, 2));
    assert s.l.queue == [Pointer, Mouse];
    s := Step(s, Token(Global, 9, 2));
    UpToThree(s.g, s.l, 0, 0);
    s := Step(s, Token(Main, 8, 0));
    assert s.fields == POINTER_FIELDS;
  }

  lemma ParsePointers(tail: seq<Byte>)
    ensures ParseFrom(START, POINTERS + tail) == ParseFrom(AFTER_POINTERS, tail)
  {
    hide ParseFrom, LittleEndian, Step;
    var b, s := POINTERS + tail, START;
    assert b[0..] == b && b[10..] == tail;
    Short(s, b, 0, Global);
    s := Step(s, Token(Global, 0, 1));
    Short(s, b, 2, Local);
    s := Step(s, Token(Local, 0, 1));
    Short(s, b, 4, Local);
    s := Step(s, Token(Local, 0, 2));
    Short(s, b, 6, Global);
    s := Step(s, Token(Global, 9, 2));
    Short(s, b, 8, Main);
    s := Step(s, Token(Main, 8, 0));
    PointerSteps();
  }

  lemma VendorSteps()
    ensures var s := Step(AFTER_POINTERS, Token(Global, 0, 0xFF00));
            var s := Step(s, Token(Local, 0, 0x30));
            var s := Step(s, Token(Main, 8, 0));
            s == AFTER_VENDOR
  {
    hide Fields;
    var s := AFTER_POINTERS;
    s := Step(s, Token(Global, 0, 0xFF00));
    s := Step(s, Token(Local, 0, 0x30));
    UpToThree(s.g, s.l, 0, 0);
    s := Step(s, Token(Main, 8, 0));
  }

  lemma ParseVendor(tail: seq<Byte>)
    ensures ParseFrom(AFTER_POINTERS, VENDOR + tail) == ParseFrom(AFTER_VENDOR, tail)
  {
    hide ParseFrom, LittleEndian, Step;
    var b, s := VENDOR + tail, AFTER_POINTERS;
    assert b[0..] == b && b[7..] == tail;
    Medium(s, b, 0, Global);
    s := Step(s, Token(Global, 0, 0xFF00));
    Short(s, b, 3, Local);
    s := Step(s, Token(Local, 0, 0x30));
    Short(s, b, 5, Main);
    s := Step(s, Token(Main, 8, 0));
    VendorSteps();
  }

  lemma ParseButtonThree(tail: seq<Byte>)
    ensures ParseFrom(AFTER_VENDOR, BUTTON_THREE + tail) == ParseFrom(AFTER_BUTTON_THREE, tail)
  {
    hide ParseFrom, Fields;
    var b, s := BUTTON_THREE + tail, AFTER_VENDOR;
    assert b[0..] == b && b[8..] == tail;
    Short(s, b, 0, Global);
    s := Step(s, Token(Global, 0, 9));
    Short(s, b, 2, Local);
    s := Step(s, Token(Local, 1, 3));
    Short(s, b, 4, Local);
    s := Step(s, Token(Local, 2, 3));
    Short(s, b, 6, Main);
    UpToThree(s.g, s.l, 0, 0);
    s := Step(s, Token(Main, 8, 0));
  }

  lemma Stops(s: State, bytes: seq<Byte>)
    requires bytes != [] && KindOf(bytes[0]).None?
    ensures ParseFrom(s, bytes) == s
  {
  }

  /** A usage of a page the parser does not know keeps its number, fields without a usage get 0,
      a button past the range keeps its number as an unknown usage, and an item of the reserved
      type ends the parse with the fields found so far. */
  lemma VendorFields()
    ensures Fold(Tokens(POINTERS + (VENDOR + (BUTTON_THREE + RESERVED)))).fields ==
            [Field(Pointer, 0, false, true, 0, 0, 0),
             Field(Mouse, 0, false, true, 0, 0, 0),
             Field(UnknownUsage(0x30), 0, false, true, 0, 0, 0),
             Field(UnknownUsage(0), 0, false, true, 0, 0, 0),
             Field(Button(3), 0, false, true, 0, 0, 0),
             Field(UnknownUsage(4), 0, false, true, 0, 0, 0)]
  {
    hide Tokens, Fold, ParseFrom;
    FoldNothing();
    ParseIsFold([], POINTERS + (VENDOR + (BUTTON_THREE + RESERVED)));
    assert forall ts: seq<Token> :: [] + ts == ts;
    ParsePointers(VENDOR + (BUTTON_THREE + RESERVED));
    ParseVendor(BUTTON_THREE + RESERVED);
    ParseButtonThree(RESERVED);
    Stops(AFTER_BUTTON_THREE, RESERVED);
  }
}
