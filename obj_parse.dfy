/**
 * The face-line side of the OBJ loader in src/Model.cpp: parseFace, which reads the
 * `a/b/c` groups of an `f` line with std::from_chars, and FaceElementHasher, which packs a
 * vertex key into a 64-bit hash for the loader's unordered_map.
 */
module ObjParse {
  import opened Morton

  const U32Modulus: nat := 0x1_0000_0000

  /** std::uint32_t. */
  type U32 = x: nat | x < 0x1_0000_0000

  datatype Option<X> = None | Some(value: X)

  /** A face corner: its (position, texcoord, normal) indices, 1-based as in the file. */
  datatype Key = Key(v: U32, vt: U32, vn: U32)

  /** A face: three corners, and a fourth one for a quad. */
  datatype Face = Face(f0: Key, f1: Key, f2: Key, f3: Option<Key>)

  // ---------------------------------------------------------------------------
  // FaceElementHasher

  /** Bitwise or of two naturals, bit by bit from the least significant one. */
  function BitOr(a: nat, b: nat): (r: nat)
    decreases a + b
  {
    if a == 0 && b == 0 then 0
    else 2 * BitOr(a / 2, b / 2) + (if a % 2 == 1 || b % 2 == 1 then 1 else 0)
  }

  /** The shifts by 21 and 42 are products with these, taken modulo the 64-bit size_t. */
  const Two21: nat := 0x20_0000
  const Two42: nat := 0x400_0000_0000
  const Two64: nat := 0x1_0000_0000_0000_0000

  /** k[0] | k[1] << 21 | k[2] << 42, each component widened to size_t first. */
  function Hash(k: Key): (r: nat)
    ensures r < Two64
  {
    SizeTPower();
    OrBound(k.v, k.vt * Two21 % Two64, 64);
    OrBound(BitOr(k.v, k.vt * Two21 % Two64), k.vn * Two42 % Two64, 64);
    BitOr(BitOr(k.v, k.vt * Two21 % Two64), k.vn * Two42 % Two64)
  }

  /** Or-ing two values below 2^k stays below 2^k. */
  lemma {:induction false} OrBound(a: nat, b: nat, k: nat)
    requires a < Pow2(k) && b < Pow2(k)
    ensures BitOr(a, b) < Pow2(k)
  {
    if k > 0 && (a != 0 || b != 0) {
      OrBound(a / 2, b / 2, k - 1);
    }
  }

  /** size_t is 64 bits wide. */
  lemma SizeTPower()
    ensures Pow2(64) == Two64
  {
    HashPowers();
    Pow2Add(42, 21);
    assert Pow2(64) == 2 * Pow2(63);
  }

  /** Or-ing in a value shifted past every bit of a is adding it. */
  lemma {:induction false} OrDisjoint(a: nat, b: nat, k: nat)
    requires a < Pow2(k)
    ensures BitOr(a, b * Pow2(k)) == a + b * Pow2(k)
  {
    if k == 0 {
      assert a == 0;
      OrZeroLeft(b);
    } else {
      var h := Pow2(k - 1);
      var m: nat := b * h;
      assert b * Pow2(k) == 2 * m;
      OrDisjoint(a / 2, b, k - 1);
      if a == 0 && m == 0 {
      } else {
        assert BitOr(a, 2 * m) == 2 * BitOr(a / 2, m) + a % 2;
      }
    }
  }

  lemma {:induction false} OrZeroLeft(b: nat)
    ensures BitOr(0, b) == b
    decreases b
  {
    if b != 0 {
      OrZeroLeft(b / 2);
    }
  }

  lemma {:induction false} OrZeroRight(a: nat)
    ensures BitOr(a, 0) == a
    decreases a
  {
    if a != 0 {
      OrZeroRight(a / 2);
    }
  }

  /** The powers of two the hasher's shifts use. */
  lemma HashPowers()
    ensures Pow2(21) == Two21 && Pow2(42) == Two42
  {
    assert Pow2(1) == 2 && Pow2(2) == 4 && Pow2(3) == 8 && Pow2(4) == 16;
    assert Pow2(5) == 32 && Pow2(6) == 64 && Pow2(7) == 128;
    Pow2Add(7, 7);
    Pow2Add(14, 7);
    Pow2Add(21, 21);
  }

  /** With every component below 2^21 the fields occupy disjoint bit ranges: the hash is a sum. */
  lemma HashIsSum(k: Key)
    requires k.v < Two21 && k.vt < Two21 && k.vn < Two21
    ensures Hash(k) == k.v + Two21 * (k.vt + Two21 * k.vn)
  {
    HashPowers();
    assert k.vt * Two21 % Two64 == k.vt * Two21;
    assert k.vn * Two42 % Two64 == k.vn * Two42;
    OrDisjoint(k.v, k.vt, 21);
    OrDisjoint(k.v + k.vt * Two21, k.vn, 42);
  }

  /** Keys whose components are below 2^21 hash alike exactly when they are equal. */
  lemma HashInjective(k: Key, k': Key)
    requires k.v < Two21 && k.vt < Two21 && k.vn < Two21
    requires k'.v < Two21 && k'.vt < Two21 && k'.vn < Two21
    ensures Hash(k) == Hash(k') <==> k == k'
  {
    HashIsSum(k);
    HashIsSum(k');
    Unpack(Hash(k), Two21, k.v, k.vt, k.vn);
    Unpack(Hash(k'), Two21, k'.v, k'.vt, k'.vn);
  }

  /** The three base-m digits of a + m * (b + m * c). */
  lemma Unpack(h: int, m: int, a: int, b: int, c: int)
    requires m > 0 && 0 <= a < m && 0 <= b < m && 0 <= c && h == a + m * (b + m * c)
    ensures h % m == a && (h / m) % m == b && h / m / m == c
  {
    DivModUnique(h, m, b + m * c, a);
    DivModUnique(b + m * c, m, c, b);
  }

  /**
   * From 2^21 on the fields overlap: position b * 2^21 and texcoord b hash alike (for
   * b below 2^11, so that the position still fits 32 bits).
   */
  lemma HashOverlapsFrom21Bits(b: nat)
    requires 0 < b < 0x800
    ensures Key(b * Two21, 0, 0) != Key(0, b, 0)
    ensures Hash(Key(b * Two21, 0, 0)) == Hash(Key(0, b, 0))
  {
    var x := b * Two21;
    assert 0 * Two21 % Two64 == 0 && 0 * Two42 % Two64 == 0 && x % Two64 == x;
    OrZeroRight(x);
    OrZeroLeft(x);
  }

  // ---------------------------------------------------------------------------
  // std::from_chars for std::uint32_t, base 10

  predicate IsDigit(c: char)
  {
    '0' <= c <= '9'
  }

  predicate AllDigits(d: string)
  {
    forall j | 0 <= j < |d| :: IsDigit(d[j])
  }

  /** s[i..e] is all digits. */
  predicate DigitsIn(s: string, i: nat, e: nat)
    requires i <= e <= |s|
  {
    forall j | i <= j < e :: IsDigit(s[j])
  }

  /** The end of the run of digits that starts at i and stops at last. */
  function DigitsEnd(s: string, i: nat, last: nat): (e: nat)
    requires i <= last <= |s|
    ensures i <= e <= last && DigitsIn(s, i, e) && (e == last || !IsDigit(s[e]))
    decreases last - i
  {
    if i == last || !IsDigit(s[i]) then i else DigitsEnd(s, i + 1, last)
  }

  /** The number the run of decimal digits s[first..e] denotes. */
  function DecimalValue(s: string, first: nat, e: nat): nat
    requires first <= e <= |s| && DigitsIn(s, first, e)
    decreases e - first
  {
    if e == first then 0 else DecimalValue(s, first, e - 1) * 10 + (s[e - 1] as int - '0' as int)
  }

  /** Outcome of one from_chars call: the value it leaves and the position it stops at. */
  datatype Parsed = Parsed(value: U32, ptr: nat)

  /**
   * std::from_chars into a std::uint32_t over s[first..last]: the longest run of digits
   * is read. With no digit the value is kept and ptr == first; with a number past
   * 2^32 - 1 the value is kept and ptr is past the digits. An empty or inverted range
   * reads nothing.
   */
  function FromChars(s: string, first: nat, last: nat, value: U32): (r: Parsed)
    requires last <= |s|
    ensures first < last ==> first <= r.ptr <= last
    ensures r.ptr == first ==> r.value == value
  {
    if first >= last then Parsed(value, first)
    else
      var e := DigitsEnd(s, first, last);
      if e == first then Parsed(value, first)
      else
        var n := DecimalValue(s, first, e);
        if n < U32Modulus then Parsed(n, e) else Parsed(value, e)
  }

  // ---------------------------------------------------------------------------
  // parseFace

  /** string_view::find_first_of(' ', from); None is npos. */
  function FindSpace(s: string, from: nat): (r: Option<nat>)
    ensures r.Some? ==> from <= r.value < |s| && s[r.value] == ' '
    ensures r.Some? ==> forall j | from <= j < r.value :: s[j] != ' '
    ensures r.None? ==> forall j | from <= j < |s| :: s[j] != ' '
    decreases |s| - from
  {
    if from >= |s| then None else if s[from] == ' ' then Some(from) else FindSpace(s, from + 1)
  }

  /**
   * One `a/b/c` group g, cut out of the line: three from_chars calls into a zeroed key,
   * each after the first starting one character past where the previous one stopped,
   * and none reading past the end of the group.
   */
  function ParseKey(g: string): Key
  {
    var fs := Fields(g, 0, 3);
    Key(fs[0], fs[1], fs[2])
  }

  /**
   * n from_chars calls over the group into zeroed values, the first from pos and each
   * later one from one character past where the previous one stopped. (|g| leads the
   * decreases clause so that a call with a literal n is not unfolded all the way.)
   */
  function Fields(g: string, pos: nat, n: nat): (r: seq<U32>)
    ensures |r| == n
    decreases |g|, n
  {
    if n == 0 then []
    else
      var p := FromChars(g, pos, |g|, 0);
      [p.value] + Fields(g, p.ptr + 1, n - 1)
  }

  /**
   * parseFace on the text after `f `: groups end at the first and second space; a third
   * space makes the face a quad whose last group runs to the end of the line, otherwise
   * the third group does. A line without two spaces is None: the source indexes the
   * string at npos there.
   */
  function ParseFace(s: string): (r: Option<Face>)
    ensures r.Some? <==> SpaceCount(s, 0) >= 2
    ensures r.Some? ==> (r.value.f3.Some? <==> SpaceCount(s, 0) >= 3)
  {
    SpacesCount(s);
    match Spaces(s)
    case None => None
    case Some(split) => Some(Groups(s, split))
  }

  /** Where parseFace cuts a line: the first two spaces, and a third one if there is one. */
  datatype Split = Split(e0: nat, e1: nat, e2: Option<nat>)

  predicate SplitIn(s: string, split: Split)
  {
    && split.e0 < split.e1 < |s|
    && (split.e2.Some? ==> split.e1 < split.e2.value < |s|)
  }

  /** The find_first_of(' ') calls of parseFace, each starting past the previous space. */
  function Spaces(s: string): (r: Option<Split>)
    ensures r.Some? ==> SplitIn(s, r.value) && s[r.value.e0] == ' ' && s[r.value.e1] == ' '
    ensures r.Some? && r.value.e2.Some? ==> s[r.value.e2.value] == ' '
  {
    match FindSpace(s, 0)
    case None => None
    case Some(e0) =>
      match FindSpace(s, e0 + 1)
      case None => None
      case Some(e1) => Some(Split(e0, e1, FindSpace(s, e1 + 1)))
  }

  /** The number of spaces in s[from..]. */
  function SpaceCount(s: string, from: nat): nat
    decreases |s| - from
  {
    if from >= |s| then 0 else (if s[from] == ' ' then 1 else 0) + SpaceCount(s, from + 1)
  }

  /** find_first_of(' ', from) finds a space exactly when one is left, and skips only that one. */
  lemma {:induction false} FindSpaceCount(s: string, from: nat)
    ensures FindSpace(s, from).None? <==> SpaceCount(s, from) == 0
    ensures FindSpace(s, from).Some? ==> SpaceCount(s, from) == 1 + SpaceCount(s, FindSpace(s, from).value + 1)
    decreases |s| - from
  {
    if from < |s| && s[from] != ' ' {
      FindSpaceCount(s, from + 1);
    }
  }

  /** The line is cut when it has two spaces, and a third one is found when it has three. */
  lemma SpacesCount(s: string)
    ensures Spaces(s).Some? <==> SpaceCount(s, 0) >= 2
    ensures Spaces(s).Some? ==> (Spaces(s).value.e2.Some? <==> SpaceCount(s, 0) >= 3)
  {
    FindSpaceCount(s, 0);
    if FindSpace(s, 0).Some? {
      var e0 := FindSpace(s, 0).value;
      FindSpaceCount(s, e0 + 1);
      if FindSpace(s, e0 + 1).Some? {
        FindSpaceCount(s, FindSpace(s, e0 + 1).value + 1);
      }
    }
  }

  /** The groups of a line cut at `split`, each read by parseKey. */
  function Groups(s: string, split: Split): Face
    requires SplitIn(s, split)
  {
    var f0 := ParseKey(s[0..split.e0]);
    var f1 := ParseKey(s[split.e0 + 1..split.e1]);
    match split.e2
    case Some(e2) => Face(f0, f1, ParseKey(s[split.e1 + 1..e2]), Some(ParseKey(s[e2 + 1..|s|])))
    case None => Face(f0, f1, ParseKey(s[split.e1 + 1..|s|]), None)
  }

  // ---------------------------------------------------------------------------
  // Writing a face line, the inverse of parseFace

  function DigitChar(n: nat): char
    requires n < 10
  {
    ('0' as int + n) as char
  }

  /** The decimal digits of n, without leading zeros. */
  function Decimal(n: nat): (d: string)
    ensures |d| >= 1 && AllDigits(d)
  {
    if n < 10 then [DigitChar(n)] else Decimal(n / 10) + [DigitChar(n % 10)]
  }

  function FormatKey(k: Key): string
  {
    Decimal(k.v) + "/" + Decimal(k.vt) + "/" + Decimal(k.vn)
  }

  /** An `f` line's text after `f `, groups separated by single spaces. */
  function FormatFace(f: Face): string
  {
    var a, b, c := FormatKey(f.f0), FormatKey(f.f1), FormatKey(f.f2);
    match f.f3
    case Some(k3) => a + " " + b + " " + c + " " + FormatKey(k3)
    case None => a + " " + b + " " + c
  }

  // ---------------------------------------------------------------------------
  // parseFace reads back every face line written this way

  /** Written digits are digits. */
  lemma WrittenDigits(s: string, first: nat, e: nat, n: nat)
    requires first <= e <= |s| && s[first..e] == Decimal(n)
    ensures DigitsIn(s, first, e)
  {
    assert forall j | first <= j < e :: s[j] == Decimal(n)[j - first];
  }

  /** Decimal digits read back as the number they were written from. */
  lemma {:induction false} DecimalRoundTrip(s: string, first: nat, e: nat, n: nat)
    requires first <= e <= |s| && s[first..e] == Decimal(n)
    ensures DigitsIn(s, first, e) && DecimalValue(s, first, e) == n
  {
    WrittenDigits(s, first, e, n);
    if n >= 10 {
      assert s[first..e - 1] == s[first..e][..e - 1 - first] == Decimal(n / 10);
      assert s[e - 1] == s[first..e][e - 1 - first] == DigitChar(n % 10);
      DecimalRoundTrip(s, first, e - 1, n / 10);
    } else {
      assert s[first] == s[first..e][0];
    }
  }

  /** The run of digits from i ends at the first non-digit or at last. */
  lemma {:induction false} DigitsEndAt(s: string, i: nat, e: nat, last: nat)
    requires i <= e <= last <= |s| && DigitsIn(s, i, e) && (e == last || !IsDigit(s[e]))
    ensures DigitsEnd(s, i, last) == e
    decreases e - i
  {
    if i < e {
      DigitsEndAt(s, i + 1, e, last);
    }
  }

  /** from_chars over a written number stops right after its digits with its value. */
  lemma FromCharsDecimal(s: string, first: nat, e: nat, last: nat, n: U32, value: U32)
    requires first <= e <= last <= |s| && s[first..e] == Decimal(n) && (e == last || !IsDigit(s[e]))
    ensures FromChars(s, first, last, value) == Parsed(n, e)
  {
    DecimalRoundTrip(s, first, e, n);
    DigitsEndAt(s, first, e, last);
  }

  predicate NoSpace(t: string)
  {
    forall j | 0 <= j < |t| :: t[j] != ' '
  }

  /** A written key has no space in it. */
  lemma KeyHasNoSpace(k: Key)
    ensures NoSpace(FormatKey(k))
  {
    var d0, d1, d2 := Decimal(k.v), Decimal(k.vt), Decimal(k.vn);
    assert FormatKey(k) == d0 + ['/'] + d1 + ['/'] + d2;
    forall j | 0 <= j < |FormatKey(k)|
      ensures FormatKey(k)[j] != ' '
    {
      if j < |d0| {
        assert FormatKey(k)[j] == d0[j];
      } else if j == |d0| {
      } else if j < |d0| + 1 + |d1| {
        assert FormatKey(k)[j] == d1[j - |d0| - 1];
      } else if j == |d0| + 1 + |d1| {
      } else {
        assert FormatKey(k)[j] == d2[j - |d0| - |d1| - 2];
      }
    }
  }

  /** A written key is read back by the three from_chars calls of parseFace. */
  lemma ParseKeyRoundTrip(k: Key)
    ensures ParseKey(FormatKey(k)) == k
  {
    var g := FormatKey(k);
    var p0, p1 := KeyLayout(g, 0, |g|, k);
    ParseLaidOutKey(g, p0, p1, k);
  }

  lemma ParseLaidOutKey(g: string, p0: nat, p1: nat, k: Key)
    requires p0 < p1 < |g|
    requires g[0..p0] == Decimal(k.v) && g[p0] == '/' && g[p0 + 1..p1] == Decimal(k.vt) && g[p1] == '/'
    requires g[p1 + 1..|g|] == Decimal(k.vn)
    ensures ParseKey(g) == k
  {
    FromCharsDecimal(g, 0, p0, |g|, k.v, 0);
    FromCharsDecimal(g, p0 + 1, p1, |g|, k.vt, 0);
    FromCharsDecimal(g, p1 + 1, |g|, |g|, k.vn, 0);
    ParseKeyParts(g, p0, p1, k.v, k.vt, k.vn);
  }

  /** The three from_chars calls of a group, given where each stops and what it reads. */
  lemma ParseKeyParts(g: string, p0: nat, p1: nat, a: U32, b: U32, c: U32)
    requires FromChars(g, 0, |g|, 0) == Parsed(a, p0)
    requires FromChars(g, p0 + 1, |g|, 0) == Parsed(b, p1)
    requires FromChars(g, p1 + 1, |g|, 0) == Parsed(c, |g|)
    ensures ParseKey(g) == Key(a, b, c)
  {
    assert Fields(g, p1 + 1, 1) == [c];
    assert Fields(g, p0 + 1, 2) == [b, c];
    assert Fields(g, 0, 3) == [a, b, c];
  }

  /** Where the three numbers and the two slashes of a written key stand in the line. */
  lemma KeyLayout(s: string, first: nat, last: nat, k: Key) returns (p0: nat, p1: nat)
    requires first <= last <= |s| && s[first..last] == FormatKey(k)
    ensures first <= p0 < p1 < last
    ensures s[first..p0] == Decimal(k.v) && s[p0] == '/' && s[p0 + 1..p1] == Decimal(k.vt) && s[p1] == '/'
    ensures s[p1 + 1..last] == Decimal(k.vn)
  {
    p0 := first + |Decimal(k.v)|;
    p1 := p0 + 1 + |Decimal(k.vt)|;
    SlashedLayout(s, first, Decimal(k.v), Decimal(k.vt), Decimal(k.vn));
  }

  lemma SlashedLayout(s: string, first: nat, d0: string, d1: string, d2: string)
    requires var w := d0 + "/" + d1 + "/" + d2; first + |w| <= |s| && s[first..first + |w|] == w
    ensures var p0 := first + |d0|;
            var p1 := p0 + 1 + |d1|;
            && p1 + 1 + |d2| <= |s|
            && s[first..p0] == d0 && s[p0] == '/' && s[p0 + 1..p1] == d1 && s[p1] == '/'
            && s[p1 + 1..p1 + 1 + |d2|] == d2
  {
    var w := d0 + "/" + d1 + "/" + d2;
    var p0 := first + |d0|;
    var p1 := p0 + 1 + |d1|;
    assert forall j | 0 <= j < |w| :: s[first + j] == w[j];
    assert forall j | 0 <= j < |d0| :: w[j] == d0[j];
    assert w[|d0|] == '/';
    assert forall j | 0 <= j < |d1| :: w[|d0| + 1 + j] == d1[j];
    assert w[|d0| + 1 + |d1|] == '/';
    assert forall j | 0 <= j < |d2| :: w[|d0| + |d1| + 2 + j] == d2[j];
  }

  /** The first space at or after `from` is at e. */
  lemma FindSpaceAt(s: string, from: nat, e: nat)
    requires from <= e < |s| && s[e] == ' ' && forall j | from <= j < e :: s[j] != ' '
    ensures FindSpace(s, from) == Some(e)
  {
    var r := FindSpace(s, from);
    if r.None? || r.value != e {
      assert false;
    }
  }

  /**
   * A line of three space-free groups joined by single spaces, followed by `tail`: where
   * each group stands and where find_first_of finds the first two spaces.
   */
  lemma SpacedLayout(s: string, a: string, b: string, c: string, tail: string)
    requires s == a + " " + b + " " + c + tail && NoSpace(a) && NoSpace(b) && NoSpace(c)
    ensures var e0 := |a|;
            var e1 := e0 + 1 + |b|;
            var e2 := e1 + 1 + |c|;
            && e2 <= |s| && s[..e0] == a && s[e0 + 1..e1] == b && s[e1 + 1..e2] == c && s[e2..] == tail
            && FindSpace(s, 0) == Some(e0) && FindSpace(s, e0 + 1) == Some(e1)
            && (forall j | e1 + 1 <= j < e2 :: s[j] != ' ')
  {
    var e0 := |a|;
    var e1 := e0 + 1 + |b|;
    var e2 := e1 + 1 + |c|;
    assert forall j | 0 <= j < e0 :: s[j] == a[j];
    assert forall j | e0 + 1 <= j < e1 :: s[j] == b[j - e0 - 1];
    assert forall j | e1 + 1 <= j < e2 :: s[j] == c[j - e1 - 1];
    assert s[e0] == ' ' && s[e1] == ' ';
    FindSpaceAt(s, 0, e0);
    FindSpaceAt(s, e0 + 1, e1);
  }

  /** find_first_of past the third group: the space before a fourth group, or npos. */
  lemma TailSpace(s: string, from: nat, e2: nat, tail: string)
    requires from <= e2 <= |s| && s[e2..] == tail && forall j | from <= j < e2 :: s[j] != ' '
    requires tail == "" || (tail[0] == ' ')
    ensures FindSpace(s, from) == if tail == "" then None else Some(e2)
  {
    if tail == "" {
      assert |s| == e2;
    } else {
      assert s[e2] == tail[0];
      FindSpaceAt(s, from, e2);
    }
  }

  /**
   * parseFace reads a written face line back: three groups make a triangle, four groups
   * make a quad with its fourth corner set.
   */
  lemma ParseFaceRoundTrip(f: Face)
    ensures ParseFace(FormatFace(f)) == Some(f)
  {
    var s := FormatFace(f);
    var a, b, c := FormatKey(f.f0), FormatKey(f.f1), FormatKey(f.f2);
    KeyHasNoSpace(f.f0);
    KeyHasNoSpace(f.f1);
    KeyHasNoSpace(f.f2);
    match f.f3
    case Some(k3) =>
      var d := FormatKey(k3);
      var split := QuadLayout(s, a, b, c, d);
      ParseKeyRead(s[0..split.e0], f.f0);
      ParseKeyRead(s[split.e0 + 1..split.e1], f.f1);
      ParseKeyRead(s[split.e1 + 1..split.e2.value], f.f2);
      ParseKeyRead(s[split.e2.value + 1..|s|], k3);
      QuadRead(s, split, f);
      FaceParts(s, split);
    case None =>
      var split := TriangleLayout(s, a, b, c);
      ParseKeyRead(s[0..split.e0], f.f0);
      ParseKeyRead(s[split.e0 + 1..split.e1], f.f1);
      ParseKeyRead(s[split.e1 + 1..|s|], f.f2);
      TriangleRead(s, split, f);
      FaceParts(s, split);
  }

  /** Where parseFace cuts three space-free groups joined by single spaces. */
  lemma TriangleLayout(s: string, a: string, b: string, c: string) returns (split: Split)
    requires s == a + " " + b + " " + c && NoSpace(a) && NoSpace(b) && NoSpace(c)
    ensures Spaces(s) == Some(split) && split.e2.None?
    ensures s[0..split.e0] == a && s[split.e0 + 1..split.e1] == b && s[split.e1 + 1..|s|] == c
  {
    assert s == a + " " + b + " " + c + "";
    split := SplitOfLayout(s, a, b, c, "");
  }

  /** Where parseFace cuts four space-free groups joined by single spaces, the last one free. */
  lemma QuadLayout(s: string, a: string, b: string, c: string, d: string) returns (split: Split)
    requires s == a + " " + b + " " + c + " " + d && NoSpace(a) && NoSpace(b) && NoSpace(c)
    ensures Spaces(s) == Some(split) && split.e2.Some?
    ensures s[0..split.e0] == a && s[split.e0 + 1..split.e1] == b
    ensures s[split.e1 + 1..split.e2.value] == c && s[split.e2.value + 1..|s|] == d
  {
    var tail := " " + d;
    assert s == a + " " + b + " " + c + tail;
    split := SplitOfLayout(s, a, b, c, tail);
    assert s[split.e2.value + 1..|s|] == s[split.e2.value..][1..] == tail[1..];
  }

  /** Where parseFace cuts three space-free groups joined by single spaces and followed by `tail`. */
  lemma SplitOfLayout(s: string, a: string, b: string, c: string, tail: string) returns (split: Split)
    requires s == a + " " + b + " " + c + tail && NoSpace(a) && NoSpace(b) && NoSpace(c)
    requires tail == "" || tail[0] == ' '
    ensures Spaces(s) == Some(split) && SplitIn(s, split)
    ensures split.e0 == |a| && split.e1 == |a| + 1 + |b| && (split.e2.Some? <==> tail != "")
    ensures s[0..split.e0] == a && s[split.e0 + 1..split.e1] == b
    ensures tail == "" ==> s[split.e1 + 1..|s|] == c
    ensures tail != "" ==> split.e2.value == split.e1 + 1 + |c|
                           && s[split.e1 + 1..split.e2.value] == c && s[split.e2.value..] == tail
  {
    SpacedLayout(s, a, b, c, tail);
    var e0 := |a|;
    var e1 := e0 + 1 + |b|;
    var e2 := e1 + 1 + |c|;
    TailSpace(s, e1 + 1, e2, tail);
    split := Split(e0, e1, if tail == "" then None else Some(e2));
  }


  /** A line cut at two spaces, into groups that read as the keys of a triangle. */
  lemma TriangleRead(s: string, split: Split, f: Face)
    requires SplitIn(s, split) && split.e2.None? && f.f3.None?
    requires ParseKey(s[0..split.e0]) == f.f0 && ParseKey(s[split.e0 + 1..split.e1]) == f.f1
    requires ParseKey(s[split.e1 + 1..|s|]) == f.f2
    ensures Groups(s, split) == f
  {
  }

  /** A line cut at three spaces, into groups that read as the keys of a quad. */
  lemma QuadRead(s: string, split: Split, f: Face)
    requires SplitIn(s, split) && split.e2.Some? && f.f3.Some?
    requires ParseKey(s[0..split.e0]) == f.f0 && ParseKey(s[split.e0 + 1..split.e1]) == f.f1
    requires ParseKey(s[split.e1 + 1..split.e2.value]) == f.f2
    requires ParseKey(s[split.e2.value + 1..|s|]) == f.f3.value
    ensures Groups(s, split) == f
  {
  }

  /** A group that is a written key reads back as that key. */
  lemma ParseKeyRead(g: string, k: Key)
    requires g == FormatKey(k)
    ensures ParseKey(g) == k
  {
    ParseKeyRoundTrip(k);
  }

  /** parseFace on a line, given where its spaces are. */
  lemma FaceParts(s: string, split: Split)
    requires Spaces(s) == Some(split)
    ensures ParseFace(s) == Some(Groups(s, split))
  {
  }
}
