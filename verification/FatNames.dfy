/** File names: case folding, the 8.3 short form and its decoding, on bytes. */
module FatNames {
  import opened Bytes
  import opened Options

  const DOT: u8 := 0x2E
  const SLASH: u8 := 0x2F
  const SPACE: u8 := 0x20

  function ToLower(c: u8): u8 {
    if 0x41 <= c <= 0x5A then c + 0x20 else c
  }

  function ToUpper(c: u8): u8 {
    if 0x61 <= c <= 0x7A then c - 0x20 else c
  }

  function Lower(s: seq<u8>): (r: seq<u8>)
    ensures |r| == |s|
  {
    seq(|s|, i requires 0 <= i < |s| => ToLower(s[i]))
  }

  function Upper(s: seq<u8>): (r: seq<u8>)
    ensures |r| == |s|
  {
    seq(|s|, i requires 0 <= i < |s| => ToUpper(s[i]))
  }

  /** Equal up to the case of ASCII letters. */
  predicate NamesEqual(a: seq<u8>, b: seq<u8>) {
    Lower(a) == Lower(b)
  }

  /** The same byte, or a capital letter and its small one. */
  predicate SameLetter(x: u8, y: u8) {
    x == y || (0x41 <= x <= 0x5A && y == x + 0x20) || (0x41 <= y <= 0x5A && x == y + 0x20)
  }

  lemma {:induction false} NamesEqualIff(a: seq<u8>, b: seq<u8>)
    ensures NamesEqual(a, b) <==> |a| == |b| && forall i :: 0 <= i < |a| ==> SameLetter(a[i], b[i])
  {
    if NamesEqual(a, b) {
      assert |Lower(a)| == |Lower(b)|;
      forall i | 0 <= i < |a|
        ensures SameLetter(a[i], b[i])
      {
        assert Lower(a)[i] == Lower(b)[i];
      }
    }
  }

  method CompareNames(a: seq<u8>, b: seq<u8>) returns (equal: bool)
    ensures equal == NamesEqual(a, b)
    ensures equal <==> |a| == |b| && forall i :: 0 <= i < |a| ==> SameLetter(a[i], b[i])
  {
    NamesEqualIff(a, b);
    if |a| != |b| {
      return false;
    }
    for i := 0 to |a|
      invariant Lower(a)[..i] == Lower(b)[..i]
    {
      if ToLower(a[i]) != ToLower(b[i]) {
        assert Lower(a)[i] != Lower(b)[i];
        return false;
      }
    }
    assert Lower(a) == Lower(a)[..|a|] && Lower(b) == Lower(b)[..|b|];
    equal := true;
  }

  /** What a C string of these bytes keeps: everything before the first NUL. */
  function CString(s: seq<u8>): (r: seq<u8>)
    ensures 0 !in s ==> r == s
  {
    if s == [] || s[0] == 0 then [] else [s[0]] + CString(s[1..])
  }

  // ---------------------------------------------------------------- encoding

  function Dots(s: seq<u8>): nat {
    if s == [] then 0 else Dots(s[..|s| - 1]) + if s[|s| - 1] == DOT then 1 else 0
  }

  /** Position of the last dot, or the length when there is none. */
  function LastDot(s: seq<u8>): (r: nat)
    ensures r <= |s|
    ensures r < |s| ==> s[r] == DOT
    ensures r == |s| <==> DOT !in s
    ensures forall i :: r < i < |s| ==> s[i] != DOT
  {
    if s == [] then 0
    else if s[|s| - 1] == DOT then |s| - 1
    else
      var r := LastDot(s[..|s| - 1]);
      if r == |s| - 1 then |s| else r
  }

  function Base(s: seq<u8>): seq<u8> { s[..LastDot(s)] }

  function Extension(s: seq<u8>): seq<u8> {
    if LastDot(s) == |s| then [] else s[LastDot(s) + 1..]
  }

  function Spaces(n: nat): (r: seq<u8>)
    ensures |r| == n
  {
    seq(n, i => SPACE)
  }

  function PadTo(s: seq<u8>, n: nat): (r: seq<u8>)
    requires |s| <= n
    ensures |r| == n
  {
    s + Spaces(n - |s|)
  }

  /** The names the driver can store: at most one dot, no slash, a base of 1 to 8
      and an extension of at most 3 bytes. */
  predicate Storable(name: seq<u8>) {
    && SLASH !in name
    && Dots(name) <= 1
    && 0 < |Base(name)| <= 8
    && |Extension(name)| <= 3
  }

  /** The 11 bytes of a storable name: base and extension in upper case, space-padded. */
  function ShortName(name: seq<u8>): (r: seq<u8>)
    requires Storable(name)
    ensures |r| == 11
  {
    PadTo(Upper(Base(name)), 8) + PadTo(Upper(Extension(name)), 3)
  }

  method MakeShortName(name: seq<u8>) returns (out: Option<seq<u8>>)
    ensures out == if Storable(name) then Some(ShortName(name)) else None
    ensures out.Some? <==> MadeOf(name, Base(name), Extension(name))
    ensures out.Some? ==> |out.value| == 11
    ensures out.Some? ==> StoresPart(out.value, 0, 8, Base(name)) && StoresPart(out.value, 8, 11, Extension(name))
  {
    StorableIff(name);
    if name == [] {
      return None;
    }
    var dot, dotCount := |name|, 0;
    for i := 0 to |name|
      invariant SLASH !in name[..i]
      invariant dotCount == Dots(name[..i])
      invariant dot == if LastDot(name[..i]) == i then |name| else LastDot(name[..i])
    {
      assert name[..i + 1][..i] == name[..i];
      if name[i] == SLASH {
        return None;
      }
      if name[i] == DOT {
        dot := i;
        dotCount := dotCount + 1;
      }
    }
    assert name[..|name|] == name;
    if dotCount > 1 {
      return None;
    }
    DotsPositive(name);
    var baseLength := dot;
    var extLength := if dotCount == 0 then 0 else |name| - dot - 1;
    if baseLength == 0 || baseLength > 8 || extLength > 3 {
      return None;
    }
    var bytes := FillShortName(name, baseLength, extLength);
    ShortNameBytes(name);
    out := Some(bytes);
  }

  method FillShortName(name: seq<u8>, baseLength: nat, extLength: nat) returns (bytes: seq<u8>)
    requires Storable(name)
    requires baseLength == |Base(name)| && extLength == |Extension(name)|
    ensures bytes == ShortName(name)
  {
    bytes := Spaces(11);
    for i := 0 to baseLength
      invariant bytes == Upper(Base(name))[..i] + Spaces(11 - i)
    {
      bytes := bytes[i := ToUpper(name[i])];
    }
    var front := PadTo(Upper(Base(name)), 8);
    assert bytes == front + Spaces(3);
    for i := 0 to extLength
      invariant bytes == front + (Upper(Extension(name))[..i] + Spaces(3 - i))
    {
      bytes := bytes[8 + i := ToUpper(name[baseLength + 1 + i])];
    }
    assert Upper(Extension(name))[..extLength] == Upper(Extension(name));
  }

  lemma {:induction false} DotsPositive(s: seq<u8>)
    ensures Dots(s) == 0 <==> DOT !in s
  {
    if s != [] {
      var t := s[..|s| - 1];
      DotsPositive(t);
      assert s == t + [s[|s| - 1]];
    }
  }

  /** With at most one dot, the base holds none. */
  lemma {:induction false} BaseHasNoDot(s: seq<u8>)
    requires Dots(s) <= 1
    ensures DOT !in Base(s) && DOT !in Extension(s)
  {
    if s != [] {
      var t := s[..|s| - 1];
      if s[|s| - 1] == DOT {
        DotsPositive(t);
        assert Base(s) == t;
      } else {
        BaseHasNoDot(t);
        assert LastDot(s) < |s| ==> Base(s) == Base(t);
      }
    }
  }

  /** `name` is a base of 1 to 8 bytes, alone or with a dot and an extension of at most 3. */
  predicate MadeOf(name: seq<u8>, base: seq<u8>, ext: seq<u8>) {
    && SLASH !in base && SLASH !in ext && DOT !in base && DOT !in ext
    && 0 < |base| <= 8 && |ext| <= 3
    && (name == base + [DOT] + ext || (name == base && ext == []))
  }

  /** Byte `x` stores byte `c`: the same letter, and no small one. */
  predicate Capital(x: u8, c: u8) { SameLetter(x, c) && !(0x61 <= x <= 0x7A) }

  /** The bytes `raw` from `at` on store `part`, in capitals, with spaces up to `end`. */
  ghost predicate StoresPart(raw: seq<u8>, at: nat, end: nat, part: seq<u8>) {
    && at + |part| <= end <= |raw|
    && (forall i :: 0 <= i < |part| ==> Capital(raw[at + i], part[i]))
    && forall i :: at + |part| <= i < end ==> raw[i] == 0x20
  }

  /** Storable are exactly the names made of such parts. */
  lemma {:induction false} StorableIff(name: seq<u8>)
    ensures Storable(name) <==> MadeOf(name, Base(name), Extension(name))
    ensures forall base, ext :: MadeOf(name, base, ext) ==> base == Base(name) && ext == Extension(name)
  {
    NameParts(name);
    if Storable(name) {
      BaseHasNoDot(name);
    }
    forall base, ext | MadeOf(name, base, ext)
      ensures base == Base(name) && ext == Extension(name) && Dots(name) <= 1
    {
      PartsAreParts(name, base, ext);
    }
  }

  lemma {:induction false} PartsAreParts(name: seq<u8>, base: seq<u8>, ext: seq<u8>)
    requires MadeOf(name, base, ext)
    ensures base == Base(name) && ext == Extension(name) && Dots(name) <= 1
  {
    DotsPositive(base);
    if name == base {
      assert DOT !in name;
    } else {
      assert name[|base|] == DOT;
      assert LastDot(name) == |base|;
      assert base + [DOT] + ext == name;
      OneDot(base, ext);
    }
  }

  lemma {:induction false} OneDot(base: seq<u8>, ext: seq<u8>)
    requires Dots(base) == 0 && DOT !in ext
    ensures Dots(base + [DOT] + ext) == 1
    decreases |ext|
  {
    var s := base + [DOT] + ext;
    if ext == [] {
      assert s[..|s| - 1] == base;
    } else {
      OneDot(base, ext[..|ext| - 1]);
      assert s[..|s| - 1] == base + [DOT] + ext[..|ext| - 1];
      assert s[|s| - 1] == ext[|ext| - 1];
    }
  }

  /** The 11 bytes: the base in the first eight, the extension in the last three. */
  lemma {:induction false} ShortNameBytes(name: seq<u8>)
    requires Storable(name)
    ensures StoresPart(ShortName(name), 0, 8, Base(name)) && StoresPart(ShortName(name), 8, 11, Extension(name))
  {
    hide PadTo, Upper, Base, Extension, Capital;
    var base, ext := Base(name), Extension(name);
    PartStored(base, 8);
    PartStored(ext, 3);
    StoredInBoth(PadTo(Upper(base), 8), PadTo(Upper(ext), 3), base, ext);
  }

  lemma {:induction false} PartStored(part: seq<u8>, n: nat)
    requires |part| <= n
    ensures StoresPart(PadTo(Upper(part), n), 0, n, part)
  {
  }

  lemma {:induction false} StoredInBoth(front: seq<u8>, back: seq<u8>, base: seq<u8>, ext: seq<u8>)
    requires StoresPart(front, 0, |front|, base) && StoresPart(back, 0, |back|, ext)
    ensures StoresPart(front + back, 0, |front|, base) && StoresPart(front + back, |front|, |front| + |back|, ext)
  {
    hide Capital;
    var raw := front + back;
    forall i | 0 <= i < |ext|
      ensures Capital(raw[|front| + i], ext[i])
    {
      assert raw[|front| + i] == back[0 + i];
    }
  }

  // ---------------------------------------------------------------- decoding

  /** Without trailing spaces. */
  function Trim(s: seq<u8>): (r: seq<u8>)
    ensures r <= s
    ensures r != [] ==> r[|r| - 1] != SPACE
  {
    if s != [] && s[|s| - 1] == SPACE then Trim(s[..|s| - 1]) else s
  }

  lemma {:induction false} TrimPad(s: seq<u8>, n: nat)
    requires s != [] ==> s[|s| - 1] != SPACE
    ensures Trim(s + Spaces(n)) == s
  {
    if n == 0 {
      assert s + Spaces(0) == s;
    } else {
      TrimPad(s, n - 1);
      assert (s + Spaces(n))[..|s| + n - 1] == s + Spaces(n - 1);
    }
  }

  lemma {:induction false} LowerNext(s: seq<u8>, at: nat, j: nat)
    requires at <= j < |s|
    ensures Lower(s[at..j + 1]) == Lower(s[at..j]) + [ToLower(s[j])]
  {
  }

  lemma {:induction false} TrimStep(s: seq<u8>)
    ensures s != [] && s[|s| - 1] == SPACE ==> Trim(s) == Trim(s[..|s| - 1])
    ensures s == [] || s[|s| - 1] != SPACE ==> Trim(s) == s
  {
  }

  /** The name the 11 bytes stand for, in lower case. */
  function Decoded(raw: seq<u8>): seq<u8>
    requires |raw| == 11
  {
    var base, ext := Trim(raw[..8]), Trim(raw[8..]);
    CString(Joined(Lower(base), Lower(ext)))
  }

  /** Base and extension with a dot between them when there is an extension. */
  function Joined(base: seq<u8>, ext: seq<u8>): (r: seq<u8>)
    ensures |r| == |base| + if ext == [] then 0 else 1 + |ext|
  {
    if ext == [] then base else base + [DOT] + ext
  }

  method ShortNameToString(raw: seq<u8>) returns (name: seq<u8>)
    requires |raw| == 11
    ensures name == Decoded(raw)
  {
    hide Trim, CString, Lower, Decoded, Joined;
    var baseEnd := 8;
    while baseEnd > 0 && raw[baseEnd - 1] == SPACE
      invariant 0 <= baseEnd <= 8 && Trim(raw[..baseEnd]) == Trim(raw[..8])
    {
      TrimStep(raw[..baseEnd]);
      assert raw[..baseEnd][..baseEnd - 1] == raw[..baseEnd - 1];
      baseEnd := baseEnd - 1;
    }
    TrimStep(raw[..baseEnd]);
    var normalName: seq<u8> := [];
    for j := 0 to baseEnd
      invariant normalName == Lower(raw[..j])
    {
      LowerNext(raw, 0, j);
      normalName := normalName + [ToLower(raw[j])];
    }
    var extEnd := 11;
    assert raw[8..11] == raw[8..];
    while extEnd > 8 && raw[extEnd - 1] == SPACE
      invariant 8 <= extEnd <= 11 && Trim(raw[8..extEnd]) == Trim(raw[8..])
    {
      TrimStep(raw[8..extEnd]);
      assert raw[8..extEnd][..extEnd - 9] == raw[8..extEnd - 1];
      extEnd := extEnd - 1;
    }
    TrimStep(raw[8..extEnd]);
    if extEnd > 8 {
      normalName := normalName + [DOT];
      for j := 8 to extEnd
        invariant normalName == Lower(raw[..baseEnd]) + [DOT] + Lower(raw[8..j])
      {
        LowerNext(raw, 8, j);
        normalName := normalName + [ToLower(raw[j])];
      }
    }
    name := CString(normalName);
    DecodedFrom(raw, raw[..baseEnd], raw[8..extEnd]);
  }

  lemma {:induction false} DecodedFrom(raw: seq<u8>, base: seq<u8>, ext: seq<u8>)
    requires |raw| == 11 && base == Trim(raw[..8]) && ext == Trim(raw[8..])
    ensures Decoded(raw) == CString(if ext == [] then Lower(base) else Lower(base) + [DOT] + Lower(ext))
  {
    hide CString, Trim;
    assert Lower(ext) == [] <==> ext == [];
  }

  // ---------------------------------------------------------------- round trip

  /** What a storable name must satisfy to come back from its 11 bytes: neither part
      ends in a space, and a dot is followed by an extension. */
  predicate Faithful(name: seq<u8>)
    requires Storable(name)
  {
    && Base(name)[|Base(name)| - 1] != SPACE
    && (Extension(name) != [] ==> Extension(name)[|Extension(name)| - 1] != SPACE)
    && (DOT in name ==> Extension(name) != [])
  }

  lemma {:induction false} LowerOfUpper(s: seq<u8>)
    ensures Lower(Upper(s)) == Lower(s)
  {
  }

  lemma {:induction false} TrimShorter(s: seq<u8>, n: nat)
    requires s != [] && s[|s| - 1] == SPACE
    ensures |Trim(s + Spaces(n))| < |s|
  {
    if n == 0 {
      assert s + Spaces(0) == s;
    } else {
      TrimShorter(s, n - 1);
      assert (s + Spaces(n))[..|s| + n - 1] == s + Spaces(n - 1);
    }
  }

  lemma {:induction false} NameParts(name: seq<u8>)
    ensures DOT in name ==> name == Base(name) + [DOT] + Extension(name)
    ensures DOT !in name ==> name == Base(name) && Extension(name) == []
  {
  }

  /** Padding and trimming a folded part gives it back, or something shorter when it
      ends in a space. */
  lemma {:induction false} TrimPadded(s: seq<u8>, n: nat)
    requires |s| <= n
    ensures |Trim(PadTo(Upper(s), n))| <= |s|
    ensures s == [] || s[|s| - 1] != SPACE ==> Trim(PadTo(Upper(s), n)) == Upper(s)
    ensures s != [] && s[|s| - 1] == SPACE ==> |Trim(PadTo(Upper(s), n))| < |s|
  {
    TrimNoLonger(Upper(s), n - |s|);
    if s == [] || s[|s| - 1] != SPACE {
      TrimPad(Upper(s), n - |s|);
    } else {
      TrimShorter(Upper(s), n - |s|);
    }
  }

  /** Decoding in terms of the two parts. */
  lemma {:induction false} DecodedParts(name: seq<u8>)
    requires Storable(name)
    ensures Decoded(ShortName(name)) ==
            CString(Joined(Lower(Trim(PadTo(Upper(Base(name)), 8))), Lower(Trim(PadTo(Upper(Extension(name)), 3)))))
  {
    var raw := ShortName(name);
    assert raw[..8] == PadTo(Upper(Base(name)), 8);
    assert raw[8..] == PadTo(Upper(Extension(name)), 3);
  }

  /** A storable name without NUL comes back from its 11 bytes, up to case, exactly
      when it is faithful. */
  lemma {:induction false} ShortNameRoundTripIff(name: seq<u8>)
    requires Storable(name) && 0 !in name
    ensures NamesEqual(Decoded(ShortName(name)), name) <==> Faithful(name)
  {
    if Faithful(name) {
      FaithfulDecodes(name);
    } else {
      UnfaithfulShrinks(name);
    }
  }

  lemma {:induction false} FaithfulDecodes(name: seq<u8>)
    requires Storable(name) && 0 !in name && Faithful(name)
    ensures Decoded(ShortName(name)) == Lower(name)
    ensures NamesEqual(Decoded(ShortName(name)), name)
  {
    hide Trim, PadTo, Upper, Lower, CString, ShortName, LastDot, Decoded;
    var base, ext := Base(name), Extension(name);
    NameParts(name);
    DecodedParts(name);
    TrimPadded(base, 8);
    TrimPadded(ext, 3);
    LowerOfUpper(base);
    LowerOfUpper(ext);
    LowerJoined(base, ext);
    LowerKeepsNul(name);
  }

  lemma {:induction false} LowerJoined(base: seq<u8>, ext: seq<u8>)
    ensures Lower(Joined(base, ext)) == Joined(Lower(base), Lower(ext))
  {
  }

  lemma {:induction false} LowerKeepsNul(s: seq<u8>)
    requires 0 !in s
    ensures 0 !in Lower(s) && Lower(Lower(s)) == Lower(s)
  {
  }

  lemma {:induction false} CStringNoLonger(s: seq<u8>)
    ensures |CString(s)| <= |s|
  {
    if s != [] && s[0] != 0 {
      CStringNoLonger(s[1..]);
    }
  }

  lemma {:induction false} UnfaithfulShrinks(name: seq<u8>)
    requires Storable(name) && !Faithful(name)
    ensures |Decoded(ShortName(name))| < |name|
  {
    var base, ext := Base(name), Extension(name);
    NameParts(name);
    DecodedParts(name);
    TrimPadded(base, 8);
    TrimPadded(ext, 3);
    CStringNoLonger(Joined(Lower(Trim(PadTo(Upper(base), 8))), Lower(Trim(PadTo(Upper(ext), 3)))));
  }

  lemma {:induction false} TrimNoLonger(s: seq<u8>, n: nat)
    ensures |Trim(s + Spaces(n))| <= |s|
  {
    if n == 0 {
      assert s + Spaces(0) == s;
    } else {
      TrimNoLonger(s, n - 1);
      assert (s + Spaces(n))[..|s| + n - 1] == s + Spaces(n - 1);
    }
  }

  /** Two faithful names get the same 11 bytes exactly when they are equal up to case. */
  lemma {:induction false} ShortNameInjective(a: seq<u8>, b: seq<u8>)
    requires Storable(a) && Storable(b) && 0 !in a && 0 !in b && Faithful(a) && Faithful(b)
    ensures ShortName(a) == ShortName(b) <==> NamesEqual(a, b)
  {
    FaithfulDecodes(a);
    FaithfulDecodes(b);
    if NamesEqual(a, b) {
      EqualNamesSameParts(a, b);
    }
  }

  lemma {:induction false} EqualNamesSameParts(a: seq<u8>, b: seq<u8>)
    requires NamesEqual(a, b)
    ensures Upper(Base(a)) == Upper(Base(b)) && Upper(Extension(a)) == Upper(Extension(b))
  {
    forall i | 0 <= i < |a|
      ensures |a| == |b| && ToUpper(a[i]) == ToUpper(b[i]) && (a[i] == DOT <==> b[i] == DOT)
    {
      assert |Lower(a)| == |Lower(b)| && Lower(a)[i] == Lower(b)[i];
    }
    assert |Lower(a)| == |Lower(b)|;
    assert LastDot(a) == LastDot(b);
  }

  /** A concrete unfaithful name: "a." is stored like "a" and reads back as "a". */
  lemma {:induction false} DotWithoutExtensionIsLost()
    ensures var name: seq<u8> := [0x61, 0x2E]; Storable(name) && Decoded(ShortName(name)) != name && !Faithful(name)
  {
    var name: seq<u8> := [0x61, 0x2E];
    assert name[..1] == [0x61];
    assert Dots(name) == 1 by {
      assert Dots([0x61]) == 0;
    }
    assert LastDot(name) == 1;
    UnfaithfulShrinks(name);
  }
}
