/** The keyboard queue: a ring buffer between a reader and an interrupt handler that may run
    between any two of its steps. */
module Keyboard {
  import opened Bytes

  // ---------------------------------------------------------------- scancodes

  /** The characters of the unshifted layout, row by row; scancodes past its end give none. */
  const ES_DIGITS: seq<u8> := [0, 27, 49, 50, 51, 52, 53, 54, 55, 56, 57, 48, 39, 63, 8, 9]
  const ES_TOP: seq<u8> := [113, 119, 101, 114, 116, 121, 117, 105, 111, 112, 96, 43, 10, 0]
  const ES_HOME: seq<u8> := [97, 115, 100, 102, 103, 104, 106, 107, 108, 63, 63, 0, 0]
  const ES_BOTTOM: seq<u8> := [63, 122, 120, 99, 118, 98, 110, 109, 44, 46, 45, 0, 42, 0, 32, 0]
  const ES_REST: seq<u8> := [
    0, 0, 0, 0, 0, 0, 0, 0, 0, 0, 0, 0, 0, 0, 45, 0, 0, 0, 43, 0, 0, 0, 0, 0, 0, 0, 0, 0, 0, 0, 60]
  const ES: seq<u8> := ES_DIGITS + ES_TOP + ES_HOME + ES_BOTTOM + ES_REST

  const ES_SHIFT_DIGITS: seq<u8> := [0, 27, 33, 34, 35, 36, 37, 38, 47, 40, 41, 61, 63, 63, 8, 9]
  const ES_SHIFT_TOP: seq<u8> := [81, 87, 69, 82, 84, 89, 85, 73, 79, 80, 94, 42, 10, 0]
  const ES_SHIFT_HOME: seq<u8> := [65, 83, 68, 70, 71, 72, 74, 75, 76, 63, 63, 0, 0]
  const ES_SHIFT_BOTTOM: seq<u8> := [63, 90, 88, 67, 86, 66, 78, 77, 59, 58, 95, 0, 42, 0, 32, 0]
  const ES_SHIFT_REST: seq<u8> := [
    0, 0, 0, 0, 0, 0, 0, 0, 0, 0, 0, 0, 0, 0, 45, 0, 0, 0, 43, 0, 0, 0, 0, 0, 0, 0, 0, 0, 0, 62]
  const ES_SHIFT: seq<u8> := ES_SHIFT_DIGITS + ES_SHIFT_TOP + ES_SHIFT_HOME + ES_SHIFT_BOTTOM + ES_SHIFT_REST

  function Lookup(layout: seq<u8>, code: nat): u8 { if code < |layout| then layout[code] else 0 }

  /** The decoder's two flags. */
  datatype Keys = Keys(shift: bool, extended: bool)

  const LEFT_SHIFT: u8 := 0x2A
  const RIGHT_SHIFT: u8 := 0x36
  const EXTENDED: u8 := 0xE0

  /** The flags after a scancode. */
  function After(k: Keys, code: u8): Keys {
    if code == EXTENDED then k.(extended := true)
    else if k.extended then k.(extended := false)
    else if code >= 0x80 then
      if code - 0x80 == LEFT_SHIFT || code - 0x80 == RIGHT_SHIFT then k.(shift := false) else k
    else if code == LEFT_SHIFT || code == RIGHT_SHIFT then k.(shift := true)
    else k
  }

  /** The character a scancode types; 0 for none. */
  function Typed(k: Keys, code: u8): u8 {
    if code == EXTENDED || k.extended || code >= 0x80 || code == LEFT_SHIFT || code == RIGHT_SHIFT then 0
    else Lookup(if k.shift then ES_SHIFT else ES, code)
  }

  /** The text a series of scancodes types. */
  function Text(k: Keys, codes: seq<u8>): seq<u8>
    decreases codes
  {
    if codes == [] then []
    else (if Typed(k, codes[0]) == 0 then [] else [Typed(k, codes[0])]) + Text(After(k, codes[0]), codes[1..])
  }

  function AfterAll(k: Keys, codes: seq<u8>): Keys
    decreases codes
  {
    if codes == [] then k else AfterAll(After(k, codes[0]), codes[1..])
  }

  lemma {:induction false} TextAppend(k: Keys, codes: seq<u8>, code: u8)
    ensures AfterAll(k, codes + [code]) == After(AfterAll(k, codes), code)
    ensures Text(k, codes + [code]) ==
            Text(k, codes) + if Typed(AfterAll(k, codes), code) == 0 then [] else [Typed(AfterAll(k, codes), code)]
    decreases codes
  {
    hide Typed, After;
    if codes == [] {
      assert (codes + [code])[1..] == [];
    } else {
      assert (codes + [code])[1..] == codes[1..] + [code];
      TextAppend(After(k, codes[0]), codes[1..], code);
    }
  }

  /** Behind the keypad the tables hold two characters only, those of the key between left
      shift and Z: "<" under scancode 89 and, shifted, ">" under 88. Scancode 86 types nothing. */
  lemma {:induction false} IsoKeyIsMisplaced(k: Keys, code: u8)
    requires 79 <= code
    ensures Typed(k, code) == if k.extended then 0
                              else if code == 89 && !k.shift then 60
                              else if code == 88 && k.shift then 62
                              else 0
  {
    assert |ES| == 90 && |ES_SHIFT| == 89;
  }

  /** The scancode does not belong to an extended key: no 0xE0 comes right before it. */
  predicate Plain(codes: seq<u8>, i: nat) { i == 0 || i > |codes| || codes[i - 1] != 0xE0 }

  predicate Presses(codes: seq<u8>, i: nat)
    requires i < |codes|
  {
    Plain(codes, i) && (codes[i] == 0x2A || codes[i] == 0x36)
  }

  predicate Releases(codes: seq<u8>, i: nat)
    requires i < |codes|
  {
    Plain(codes, i) && (codes[i] == 0xAA || codes[i] == 0xB6)
  }

  /** A shift key was pressed and none has been released since, extended keys aside. */
  ghost predicate ShiftHeld(codes: seq<u8>) {
    exists i :: 0 <= i < |codes| && Presses(codes, i) && forall j :: i < j < |codes| ==> !Releases(codes, j)
  }

  lemma {:induction false} HeldAppend(codes: seq<u8>, code: u8)
    ensures var more, n := codes + [code], |codes|;
            ShiftHeld(more) <==> Presses(more, n) || (ShiftHeld(codes) && !Releases(more, n))
  {
    var more, n := codes + [code], |codes|;
    assert forall i :: 0 <= i < n ==> Presses(more, i) == Presses(codes, i) && Releases(more, i) == Releases(codes, i);
    if ShiftHeld(codes) && !Releases(more, n) {
      var i :| 0 <= i < n && Presses(codes, i) && forall j :: i < j < n ==> !Releases(codes, j);
      assert Presses(more, i) && forall j :: i < j < n + 1 ==> !Releases(more, j);
    }
    if ShiftHeld(more) && !Presses(more, n) {
      var i :| 0 <= i < n + 1 && Presses(more, i) && forall j :: i < j < n + 1 ==> !Releases(more, j);
      assert Presses(codes, i) && forall j :: i < j < n ==> !Releases(codes, j);
      assert !Releases(more, n);
    }
  }

  /** The decoder's flags, over everything typed so far: whether an extended key has begun, and
      whether shift is held. */
  lemma {:induction false} FlagsOfHistory(codes: seq<u8>)
    ensures AfterAll(Keys(false, false), codes) ==
            Keys(ShiftHeld(codes), codes != [] && codes[|codes| - 1] == 0xE0)
  {
    hide After, Text;
    if codes != [] {
      var before, code := codes[..|codes| - 1], codes[|codes| - 1];
      assert codes == before + [code];
      FlagsOfHistory(before);
      TextAppend(Keys(false, false), before, code);
      HeldAppend(before, code);
      FlagsStep(before, code);
    }
  }

  lemma {:induction false} FlagsStep(before: seq<u8>, code: u8)
    ensures var more, k := before + [code], Keys(ShiftHeld(before), before != [] && before[|before| - 1] == 0xE0);
            && After(k, code).extended == (code == 0xE0)
            && After(k, code).shift == (Presses(more, |before|) || (k.shift && !Releases(more, |before|)))
  {
    hide ShiftHeld;
  }

  /** The scancodes from `at` on type the characters of `row`. */
  ghost predicate RowTypes(layout: seq<u8>, at: nat, row: string) {
    at + |row| <= |layout| && forall i :: 0 <= i < |row| ==> layout[at + i] == row[i] as int
  }

  lemma {:induction false} RowsInside(a: seq<u8>, b: seq<u8>, c: seq<u8>, d: seq<u8>, e: seq<u8>)
    ensures var s := a + b + c + d + e;
            && s[..|a|] == a && s[|a|..|a| + |b|] == b && s[|a| + |b|..|a| + |b| + |c|] == c
            && s[|a| + |b| + |c|..|a| + |b| + |c| + |d|] == d
  {
  }

  lemma {:induction false} RowOf(layout: seq<u8>, start: nat, keys: seq<u8>, at: nat, row: string)
    requires start + |keys| <= |layout| && layout[start..start + |keys|] == keys && RowTypes(keys, at, row)
    ensures RowTypes(layout, start + at, row)
  {
    forall i | 0 <= i < |row|
      ensures layout[start + at + i] == row[i] as int
    {
      assert layout[start..start + |keys|][at + i] == keys[at + i];
    }
  }

  /** A row of keys and its characters, key by key. */
  lemma {:induction false} KeyByKey(keys: seq<u8>, at: nat, row: string)
    requires 9 <= |row| <= 10 && at + |row| <= |keys|
    requires keys[at + 0] == row[0] as int && keys[at + 1] == row[1] as int && keys[at + 2] == row[2] as int
    requires keys[at + 3] == row[3] as int && keys[at + 4] == row[4] as int && keys[at + 5] == row[5] as int
    requires keys[at + 6] == row[6] as int && keys[at + 7] == row[7] as int && keys[at + 8] == row[8] as int
    requires |row| == 10 ==> keys[at + 9] == row[9] as int
    ensures RowTypes(keys, at, row)
  {
    forall i | 0 <= i < |row|
      ensures keys[at + i] == row[i] as int
    {
      assert i in {0, 1, 2, 3, 4, 5, 6, 7, 8, 9};
    }
  }

  lemma {:induction false} DigitsRow()
    ensures RowTypes(ES_DIGITS, 2, "1234567890") && RowTypes(ES_SHIFT_DIGITS, 2, "!\"#$%&/()=")
  {
    KeyByKey(ES_DIGITS, 2, "1234567890");
    KeyByKey(ES_SHIFT_DIGITS, 2, "!\"#$%&/()=");
  }

  lemma {:induction false} TopRow()
    ensures RowTypes(ES_TOP, 0, "qwertyuiop") && RowTypes(ES_SHIFT_TOP, 0, "QWERTYUIOP")
  {
    KeyByKey(ES_TOP, 0, "qwertyuiop");
    KeyByKey(ES_SHIFT_TOP, 0, "QWERTYUIOP");
  }

  lemma {:induction false} HomeRow()
    ensures RowTypes(ES_HOME, 0, "asdfghjkl") && RowTypes(ES_SHIFT_HOME, 0, "ASDFGHJKL")
  {
    KeyByKey(ES_HOME, 0, "asdfghjkl");
    KeyByKey(ES_SHIFT_HOME, 0, "ASDFGHJKL");
  }

  lemma {:induction false} BottomRow()
    ensures RowTypes(ES_BOTTOM, 1, "zxcvbnm,.-") && RowTypes(ES_SHIFT_BOTTOM, 1, "ZXCVBNM;:_")
  {
    KeyByKey(ES_BOTTOM, 1, "zxcvbnm,.-");
    KeyByKey(ES_SHIFT_BOTTOM, 1, "ZXCVBNM;:_");
  }

  /** What the rows of keys type, plain and with shift. */
  lemma {:induction false} RowsType()
    ensures RowTypes(ES, 2, "1234567890") && RowTypes(ES_SHIFT, 2, "!\"#$%&/()=")
    ensures RowTypes(ES, 16, "qwertyuiop") && RowTypes(ES_SHIFT, 16, "QWERTYUIOP")
    ensures RowTypes(ES, 30, "asdfghjkl") && RowTypes(ES_SHIFT, 30, "ASDFGHJKL")
    ensures RowTypes(ES, 44, "zxcvbnm,.-") && RowTypes(ES_SHIFT, 44, "ZXCVBNM;:_")
  {
    hide RowTypes;
    RowsInside(ES_DIGITS, ES_TOP, ES_HOME, ES_BOTTOM, ES_REST);
    RowsInside(ES_SHIFT_DIGITS, ES_SHIFT_TOP, ES_SHIFT_HOME, ES_SHIFT_BOTTOM, ES_SHIFT_REST);
    DigitsRow();
    TopRow();
    HomeRow();
    BottomRow();
    RowOf(ES, 0, ES_DIGITS, 2, "1234567890");
    RowOf(ES, 16, ES_TOP, 0, "qwertyuiop");
    RowOf(ES, 30, ES_HOME, 0, "asdfghjkl");
    RowOf(ES, 43, ES_BOTTOM, 1, "zxcvbnm,.-");
    RowOf(ES_SHIFT, 0, ES_SHIFT_DIGITS, 2, "!\"#$%&/()=");
    RowOf(ES_SHIFT, 16, ES_SHIFT_TOP, 0, "QWERTYUIOP");
    RowOf(ES_SHIFT, 30, ES_SHIFT_HOME, 0, "ASDFGHJKL");
    RowOf(ES_SHIFT, 43, ES_SHIFT_BOTTOM, 1, "ZXCVBNM;:_");
  }

  // ---------------------------------------------------------------- the system

  /** Where the reader is: between calls, or before one of the steps of a call. */
  datatype Pc = Idle
              | LoadRead | LoadWrite | LoadIndex | LoadChar | LoadNext | StoreNext | Return
              | HasRead | HasWrite

  /** The variables of the queue, the reader's place and registers, and what has happened:
      scancodes seen, characters accepted and lost, characters returned. */
  datatype System = System(
    buffer: seq<u8>, readIndex: nat, writeIndex: nat, keys: Keys,
    pc: Pc, index: nat, letter: u8, answer: bool,
    codes: seq<u8>, accepted: seq<u8>, dropped: seq<u8>, returned: seq<u8>)

  /** The interrupt handler's store into the ring; a full ring drops the character. */
  function Enqueued(s: System, c: u8): System
    requires |s.buffer| == 256 && s.writeIndex < 256
  {
    var next := (s.writeIndex + 1) % 256;
    if next == s.readIndex then s.(dropped := s.dropped + [c])
    else s.(buffer := s.buffer[s.writeIndex := c], writeIndex := next, accepted := s.accepted + [c])
  }

  /** One keyboard interrupt, run to its end. */
  function Interrupted(s: System, code: u8): System
    requires |s.buffer| == 256 && s.writeIndex < 256
  {
    var c, t := Typed(s.keys, code), s.(keys := After(s.keys, code), codes := s.codes + [code]);
    if c == 0 then t else Enqueued(t, c)
  }

  /** The reader calls one of its two functions. */
  function Called(s: System, get: bool): System {
    if s.pc != Idle then s else s.(pc := if get then LoadRead else HasRead)
  }

  /** One step of the reader: one load, compare or store of a shared variable. */
  function Stepped(s: System): System
    requires |s.buffer| == 256 && s.readIndex < 256 && s.index < 256
  {
    match s.pc
    case Idle => s
    case LoadRead => s.(index := s.readIndex, pc := LoadWrite)
    case LoadWrite => s.(pc := if s.index == s.writeIndex then LoadRead else LoadIndex)
    case LoadIndex => s.(index := s.readIndex, pc := LoadChar)
    case LoadChar => s.(letter := s.buffer[s.index], pc := LoadNext)
    case LoadNext => s.(index := s.readIndex, pc := StoreNext)
    case StoreNext => s.(readIndex := (s.index + 1) % 256, pc := Return)
    case Return => s.(returned := s.returned + [s.letter], pc := Idle)
    case HasRead => s.(index := s.readIndex, pc := HasWrite)
    case HasWrite => s.(answer := s.index != s.writeIndex, pc := Idle)
  }

  // ---------------------------------------------------------------- what always holds

  /** Characters taken out of the ring: those returned, and the one about to be. */
  function Taken(s: System): nat { |s.returned| + if s.pc == Return then 1 else 0 }

  function Pending(s: System): int { |s.accepted| - Taken(s) }

  function Slot(k: nat): (r: nat)
    ensures r < 256
  {
    k % 256
  }

  lemma {:induction false} SlotNext(k: nat)
    ensures (Slot(k) + 1) % 256 == Slot(k + 1)
  {
  }

  lemma {:induction false} SlotsApart(i: nat, j: nat)
    requires i <= j <= i + 256
    ensures Slot(i) == Slot(j) <==> i == j || j == i + 256
  {
  }

  /** Character `k` of those accepted is still in its slot. */
  ghost predicate InSlot(buffer: seq<u8>, accepted: seq<u8>, k: nat)
    requires |buffer| == 256
  {
    k < |accepted| ==> buffer[Slot(k)] == accepted[k]
  }

  /** What the reader's registers hold at each place. */
  ghost predicate RegistersFit(s: System) {
    match s.pc
    case LoadWrite | HasWrite => s.index == s.readIndex
    case LoadIndex => Pending(s) > 0
    case LoadChar => Pending(s) > 0 && s.index == s.readIndex
    case LoadNext => Pending(s) > 0 && s.letter == s.accepted[Taken(s)]
    case StoreNext => Pending(s) > 0 && s.letter == s.accepted[Taken(s)] && s.index == s.readIndex
    case Return => Taken(s) <= |s.accepted| && s.letter == s.accepted[Taken(s) - 1]
    case _ => true
  }

  ghost predicate Inv(s: System) {
    && |s.buffer| == 256 && s.index < 256
    && 0 <= Pending(s) <= 255
    && s.readIndex == Slot(Taken(s)) && s.writeIndex == Slot(|s.accepted|)
    && s.returned <= s.accepted
    && RegistersFit(s)
    && forall k: nat :: Taken(s) <= k ==> InSlot(s.buffer, s.accepted, k)
  }

  /** A queue before its first interrupt and its first call. */
  ghost predicate Start(s: System) {
    && |s.buffer| == 256 && s.readIndex == 0 && s.writeIndex == 0 && s.keys == Keys(false, false)
    && s.pc == Idle && s.index < 256 && s.codes == [] && s.accepted == [] && s.dropped == [] && s.returned == []
  }

  lemma {:induction false} StartInv(s: System)
    requires Start(s)
    ensures Inv(s)
  {
  }

  /** The ring drops a character exactly when 255 are pending. */
  lemma {:induction false} DropsIff(s: System, c: u8)
    requires Inv(s)
    ensures Enqueued(s, c).dropped == s.dropped + (if Pending(s) == 255 then [c] else [])
    ensures Enqueued(s, c).accepted == s.accepted + (if Pending(s) == 255 then [] else [c])
  {
    SlotNext(|s.accepted|);
    SlotsApart(Taken(s), |s.accepted| + 1);
  }

  lemma {:induction false} EnqueuedInv(s: System, c: u8)
    requires Inv(s)
    ensures Inv(Enqueued(s, c))
  {
    var n, t := |s.accepted|, Enqueued(s, c);
    DropsIff(s, c);
    SlotNext(n);
    if Pending(s) < 255 {
      SlotsApart(Taken(s), n + 1);
      forall k: nat | Taken(s) <= k
        ensures InSlot(t.buffer, t.accepted, k)
      {
        assert InSlot(s.buffer, s.accepted, k);
        if k < n {
          SlotsApart(k, n);
        }
      }
    }
  }

  lemma {:induction false} InterruptedInv(s: System, code: u8)
    requires Inv(s)
    ensures Inv(Interrupted(s, code))
  {
    var t := s.(keys := After(s.keys, code), codes := s.codes + [code]);
    FlagsDoNotMatter(s, t);
    if Typed(s.keys, code) != 0 {
      EnqueuedInv(t, Typed(s.keys, code));
    }
  }

  lemma {:induction false} FlagsDoNotMatter(s: System, t: System)
    requires Inv(s) && t == s.(keys := t.keys, codes := t.codes)
    ensures Inv(t)
  {
    forall k: nat | Taken(t) <= k
      ensures InSlot(t.buffer, t.accepted, k)
    {
      assert InSlot(s.buffer, s.accepted, k);
    }
  }

  lemma {:induction false} SteppedInv(s: System)
    requires Inv(s)
    ensures Inv(Stepped(s))
  {
    hide Slot;
    var t := Stepped(s);
    SlotsApart(Taken(s), |s.accepted|);
    SlotNext(Taken(s));
    assert InSlot(s.buffer, s.accepted, Taken(s));
    forall k: nat | Taken(t) <= k
      ensures InSlot(t.buffer, t.accepted, k)
    {
      assert InSlot(s.buffer, s.accepted, k);
    }
  }

  // ---------------------------------------------------------------- runs

  datatype Event = Interrupt(code: u8) | Call(get: bool) | Step

  ghost function Next(s: System, e: Event): System
    requires Inv(s)
  {
    match e
    case Interrupt(code) => Interrupted(s, code)
    case Call(get) => Called(s, get)
    case Step => Stepped(s)
  }

  /** The system after a series of events, in any interleaving. */
  ghost function Run(s: System, es: seq<Event>): (r: System)
    requires Inv(s)
    ensures Inv(r)
    decreases |es|
  {
    if es == [] then s
    else
      NextInv(s, es[0]);
      Run(Next(s, es[0]), es[1..])
  }

  lemma {:induction false} NextInv(s: System, e: Event)
    requires Inv(s)
    ensures Inv(Next(s, e))
  {
    match e
    case Interrupt(code) => InterruptedInv(s, code);
    case Call(get) =>
      var t := Called(s, get);
      forall k: nat | Taken(t) <= k
        ensures InSlot(t.buffer, t.accepted, k)
      {
        assert InSlot(s.buffer, s.accepted, k);
      }
    case Step => SteppedInv(s);
  }

  /** Under every interleaving the characters returned are, in order, a prefix of those
      accepted; what is pending is the rest of them, and at most 255. */
  lemma {:induction false} ReturnedInOrder(s: System, es: seq<Event>)
    requires Start(s)
    ensures Inv(s) && var t := Run(s, es); t.returned <= t.accepted && |t.accepted| - |t.returned| <= 256
  {
    StartInv(s);
  }

  /** `text` is `a` and `b` merged, each in its order. */
  ghost predicate Merges(text: seq<u8>, a: seq<u8>, b: seq<u8>) {
    if text == [] then a == [] && b == []
    else
      var rest, last := text[..|text| - 1], text[|text| - 1];
      || (a != [] && a[|a| - 1] == last && Merges(rest, a[..|a| - 1], b))
      || (b != [] && b[|b| - 1] == last && Merges(rest, a, b[..|b| - 1]))
  }

  lemma {:induction false} MergesMore(text: seq<u8>, a: seq<u8>, b: seq<u8>, c: u8)
    requires Merges(text, a, b)
    ensures Merges(text + [c], a + [c], b) && Merges(text + [c], a, b + [c])
  {
    assert (text + [c])[..|text|] == text && (a + [c])[..|a|] == a && (b + [c])[..|b|] == b;
  }

  /** A merge has exactly the elements of both parts; without the second it is the first. */
  lemma {:induction false} MergesAll(text: seq<u8>, a: seq<u8>, b: seq<u8>)
    requires Merges(text, a, b)
    ensures |text| == |a| + |b| && multiset(text) == multiset(a) + multiset(b)
    ensures b == [] <==> a == text
  {
    if text != [] {
      var rest, last := text[..|text| - 1], text[|text| - 1];
      assert text == rest + [last];
      if a != [] && a[|a| - 1] == last && Merges(rest, a[..|a| - 1], b) {
        MergesAll(rest, a[..|a| - 1], b);
        assert a == a[..|a| - 1] + [last];
      } else {
        MergesAll(rest, a, b[..|b| - 1]);
        assert b == b[..|b| - 1] + [last];
      }
    }
  }

  /** What was typed has been offered to the ring, each character once and in order. */
  ghost predicate Accounted(s: System) {
    && s.keys == AfterAll(Keys(false, false), s.codes)
    && Merges(Text(Keys(false, false), s.codes), s.accepted, s.dropped)
  }

  lemma {:induction false} EmptyMerge(s: System)
    requires Start(s)
    ensures Accounted(s)
  {
  }

  lemma {:induction false} AccountedStep(s: System, e: Event)
    requires Inv(s) && Accounted(s)
    ensures Accounted(Next(s, e))
  {
    hide RegistersFit, Slot, InSlot, Typed, After, Text, AfterAll, Merges;
    match e
    case Interrupt(code) =>
      TextAppend(Keys(false, false), s.codes, code);
      var t := s.(keys := After(s.keys, code), codes := s.codes + [code]);
      FlagsDoNotMatter(s, t);
      assert Text(Keys(false, false), s.codes) + [] == Text(Keys(false, false), s.codes);
      if Typed(s.keys, code) != 0 {
        DropsIff(t, Typed(s.keys, code));
        MergesMore(Text(Keys(false, false), s.codes), s.accepted, s.dropped, Typed(s.keys, code));
      }
    case Call(get) =>
    case Step =>
  }

  lemma {:induction false} RunAccounted(s: System, es: seq<Event>)
    requires Inv(s) && Accounted(s)
    ensures Accounted(Run(s, es))
    decreases |es|
  {
    if es != [] {
      AccountedStep(s, es[0]);
      NextInv(s, es[0]);
      RunAccounted(Next(s, es[0]), es[1..]);
    }
  }

  /** Every character typed is accepted or dropped: the typed text is the accepted and the
      dropped characters merged, each in the order typed. When nothing was dropped, the
      reader gets the typed text from its beginning. */
  lemma {:induction false} NothingIsLost(s: System, es: seq<Event>)
    requires Start(s)
    ensures Inv(s)
    ensures var t := Run(s, es); var text := Text(Keys(false, false), t.codes);
            && Merges(text, t.accepted, t.dropped)
            && multiset(text) == multiset(t.accepted) + multiset(t.dropped)
            && (t.dropped == [] <==> t.accepted == text)
            && (t.dropped == [] ==> t.returned <= text)
  {
    hide Merges, Text;
    StartInv(s);
    EmptyMerge(s);
    RunAccounted(s, es);
    var t := Run(s, es);
    MergesAll(Text(Keys(false, false), t.codes), t.accepted, t.dropped);
  }

  /** Reader steps left until a call of getChar returns, once a character is pending. */
  function StepsLeft(pc: Pc): nat {
    match pc
    case LoadRead => 7
    case LoadWrite => 6
    case LoadIndex => 5
    case LoadChar => 4
    case LoadNext => 3
    case StoreNext => 2
    case Return => 1
    case _ => 0
  }

  /** With a character pending each step of the reader brings the return closer, and no
      interrupt sets it back or takes the character away. */
  lemma {:induction false} ReaderProgresses(s: System, code: u8)
    requires Inv(s) && 0 < StepsLeft(s.pc) && (s.pc == Return || Pending(s) > 0)
    ensures StepsLeft(Stepped(s).pc) == StepsLeft(s.pc) - 1
    ensures Stepped(s).pc == Idle || Stepped(s).pc == Return || Pending(Stepped(s)) > 0
    ensures s.pc == Return <==> Stepped(s).returned != s.returned
    ensures Interrupted(s, code).pc == s.pc && Pending(Interrupted(s, code)) >= Pending(s)
  {
    SlotsApart(Taken(s), |s.accepted|);
    if s.pc == Return {
      assert |Stepped(s).returned| == |s.returned| + 1;
    }
  }

  function StepCount(es: seq<Event>): nat {
    if es == [] then 0 else (if es[0] == Step then 1 else 0) + StepCount(es[1..])
  }

  /** A waiting reader returns the oldest pending character after at most seven of its own
      steps, however many interrupts come between them. */
  lemma {:induction false} GetsOldest(s: System, es: seq<Event>)
    requires Inv(s) && 0 < StepsLeft(s.pc) && Pending(s) > 0 && s.pc != Return
    requires StepCount(es) >= StepsLeft(s.pc)
    ensures |Run(s, es).returned| > |s.returned| && Run(s, es).returned[|s.returned|] == s.accepted[|s.returned|]
  {
    ReturnsBy(s, es, |s.returned|);
    Grows(s, es);
  }

  lemma {:induction false} Grows(s: System, es: seq<Event>)
    requires Inv(s)
    ensures s.accepted <= Run(s, es).accepted && s.returned <= Run(s, es).returned
    decreases |es|
  {
    hide RegistersFit, Slot, InSlot, Typed, After;
    if es != [] {
      NextInv(s, es[0]);
      Grows(Next(s, es[0]), es[1..]);
    }
  }

  lemma {:induction false} ReturnsBy(s: System, es: seq<Event>, n: nat)
    requires Inv(s) && n <= |s.returned|
    requires |s.returned| == n ==>
               0 < StepsLeft(s.pc) && (s.pc == Return || Pending(s) > 0) && StepCount(es) >= StepsLeft(s.pc)
    ensures |Run(s, es).returned| > n
    decreases |es|
  {
    hide RegistersFit, Slot, InSlot, Typed, After;
    if es != [] {
      NextInv(s, es[0]);
      if |s.returned| == n {
        ReaderProgresses(s, if es[0].Interrupt? then es[0].code else 0);
      } else {
        Grows(s, [es[0]]);
        assert [es[0]][1..] == [];
      }
      ReturnsBy(Next(s, es[0]), es[1..], n);
    }
  }

  /** hasChar answers whether a character is pending at its last load. */
  lemma {:induction false} HasCharIsExact(s: System)
    requires Inv(s) && s.pc == HasWrite
    ensures Stepped(s).answer <==> Pending(s) > 0
  {
    SlotsApart(Taken(s), |s.accepted|);
  }

  // ---------------------------------------------------------------- the driver

  /** The driver's variables, and the reader's place in its own code. */
  class Queue {
    const inputBuffer: array<u8>
    var readIndex: nat
    var writeIndex: nat
    var shiftPressed: bool
    var extendedScancode: bool
    var pc: Pc
    var index: nat
    var letter: u8
    var answer: bool
    ghost var codes: seq<u8>
    ghost var accepted: seq<u8>
    ghost var dropped: seq<u8>
    ghost var returned: seq<u8>

    ghost function State(): System
      reads this, inputBuffer
    {
      System(inputBuffer[..], readIndex, writeIndex, Keys(shiftPressed, extendedScancode),
             pc, index, letter, answer, codes, accepted, dropped, returned)
    }

    ghost predicate Valid()
      reads this, inputBuffer
    {
      Inv(State())
    }

    constructor ()
      ensures Valid() && Start(State())
    {
      inputBuffer := new u8[256];
      readIndex, writeIndex, shiftPressed, extendedScancode := 0, 0, false, false;
      pc, index, letter, answer := Idle, 0, 0, false;
      codes, accepted, dropped, returned := [], [], [], [];
      new;
      StartInv(State());
    }

    method Enqueue(c: u8)
      requires Valid()
      modifies this`writeIndex, this`accepted, this`dropped, inputBuffer
      ensures Valid() && State() == Enqueued(old(State()), c)
    {
      EnqueuedInv(State(), c);
      var nextIndex := (writeIndex + 1) % 256;
      if nextIndex == readIndex {
        dropped := dropped + [c];
        return;
      }
      inputBuffer[writeIndex] := c;
      writeIndex := nextIndex;
      accepted := accepted + [c];
    }

    /** One keyboard interrupt with the scancode read from the controller. */
    method Handler(scancode: u8)
      requires Valid()
      modifies this`writeIndex, this`accepted, this`dropped, this`codes, this`shiftPressed, this`extendedScancode,
               inputBuffer
      ensures Valid() && State() == Interrupted(old(State()), scancode)
    {
      hide RegistersFit, Slot, InSlot;
      InterruptedInv(State(), scancode);
      ghost var s := State();
      codes := codes + [scancode];
      FlagsDoNotMatter(s, State());
      if scancode == 0xE0 {
        extendedScancode := true;
        return;
      }
      if extendedScancode {
        extendedScancode := false;
        return;
      }
      if scancode >= 0x80 {
        var released := scancode - 0x80;
        if released == 0x2A || released == 0x36 {
          shiftPressed := false;
        }
        return;
      }
      if scancode == 0x2A || scancode == 0x36 {
        shiftPressed := true;
        return;
      }
      var c := Lookup(if shiftPressed then ES_SHIFT else ES, scancode);
      if c != 0 {
        Enqueue(c);
      }
    }

    /** One step of the reader. */
    method ReaderStep()
      requires Valid()
      modifies this`readIndex, this`pc, this`index, this`letter, this`answer, this`returned
      ensures Valid() && State() == Stepped(old(State()))
    {
      hide RegistersFit, Slot, InSlot;
      SteppedInv(State());
      match pc {
        case Idle =>
        case LoadRead => index, pc := readIndex, LoadWrite;
        case LoadWrite => pc := if index == writeIndex then LoadRead else LoadIndex;
        case LoadIndex => index, pc := readIndex, LoadChar;
        case LoadChar => letter, pc := inputBuffer[index], LoadNext;
        case LoadNext => index, pc := readIndex, StoreNext;
        case StoreNext => readIndex, pc := (index + 1) % 256, Return;
        case Return => returned, pc := returned + [letter], Idle;
        case HasRead => index, pc := readIndex, HasWrite;
        case HasWrite => answer, pc := index != writeIndex, Idle;
      }
    }
  }
}
