/**
 The library version number of the MCCI FRAM I2C driver: four one-byte fields
 (major, minor, patch, local) packed into one unsigned 32-bit word, major in
 bits 31..24, minor in 23..16, patch in 15..8 and local in 7..0. The packed
 word is meant to be compared with `<` by clients, typically in compile-time
 checks, so the model proves that unsigned order on words is lexicographic
 order on the fields.

 `uint8_t` is `bv8` and `uint32_t` is `bv32`; the shifts and the bitwise or are
 the source's own, and the truncating conversion to `uint8_t` is written out as
 a mask with 0xFF.
 */
module FramVersion {

  import Base256

  /** The bits of the word that hold each field. */
  const MajorMask: bv32 := 0xFF00_0000
  const MinorMask: bv32 := 0x00FF_0000
  const PatchMask: bv32 := 0x0000_FF00
  const LocalMask: bv32 := 0x0000_00FF

  /** A version number with its four fields apart. */
  datatype Version = Version(major: bv8, minor: bv8, patch: bv8, local: bv8)

  /** Lexicographic order on versions: major first, then minor, patch, local. */
  predicate Precedes(x: Version, y: Version) {
    || x.major < y.major
    || (x.major == y.major && x.minor < y.minor)
    || (x.major == y.major && x.minor == y.minor && x.patch < y.patch)
    || (x.major == y.major && x.minor == y.minor && x.patch == y.patch && x.local < y.local)
  }

  /** Packs the four fields into one word; `local` defaults to 0, as in the
      source. */
  function MakeVersion(major: bv8, minor: bv8, patch: bv8, local: bv8 := 0): (v: bv32) {
    (major as bv32 << 24) | (minor as bv32 << 16) | (patch as bv32 << 8) | local as bv32
  }

  /** The version of the library itself, 2.0.2 with local 0. */
  function GetVersion(): (v: bv32)
    ensures v == 0x0200_0200
    ensures GetMajor(v) == 2 && GetMinor(v) == 0 && GetPatch(v) == 2 && GetLocal(v) == 0
  {
    MakeVersion(2, 0, 2, 0)
  }

  /** The major number: exactly the bits of the top byte. After the shift
      only eight bits are left, so the conversion to a byte truncates nothing. */
  function GetMajor(v: bv32): (r: bv8)
    ensures (r as bv32) << 24 == v & MajorMask
  {
    (v >> 24) as bv8
  }

  /** The minor number: exactly the bits of the second byte. */
  function GetMinor(v: bv32): (r: bv8)
    ensures (r as bv32) << 16 == v & MinorMask
  {
    ((v >> 16) & 0xFF) as bv8
  }

  /** The patch number: exactly the bits of the third byte. */
  function GetPatch(v: bv32): (r: bv8)
    ensures (r as bv32) << 8 == v & PatchMask
  {
    ((v >> 8) & 0xFF) as bv8
  }

  /** The local number: the byte that completes the word below its upper
      24 bits. */
  function GetLocal(v: bv32): (r: bv8)
    ensures ((v >> 8) << 8) | r as bv32 == v
  {
    (v & 0xFF) as bv8
  }

  /** The four extractors together. */
  function Unpack(v: bv32): Version {
    Version(GetMajor(v), GetMinor(v), GetPatch(v), GetLocal(v))
  }

  /** Decoding inverts encoding: each extractor gives back the field that was
      packed into its byte, for every tuple of fields. */
  lemma ExtractMakeVersion(major: bv8, minor: bv8, patch: bv8, local: bv8)
    ensures Unpack(MakeVersion(major, minor, patch, local)) == Version(major, minor, patch, local)
  {
  }

  /** Encoding inverts decoding, for every word: the four fields cover all 32
      bits without overlap. */
  lemma MakeVersionOfFields(v: bv32)
    ensures MakeVersion(GetMajor(v), GetMinor(v), GetPatch(v), GetLocal(v)) == v
  {
  }

  /** The masks tile the word: disjoint, and together all of it. */
  lemma MasksTile()
    ensures MajorMask & MinorMask == 0 && MajorMask & PatchMask == 0 && MajorMask & LocalMask == 0
    ensures MinorMask & PatchMask == 0 && MinorMask & LocalMask == 0 && PatchMask & LocalMask == 0
    ensures MajorMask | MinorMask | PatchMask | LocalMask == 0xFFFF_FFFF
  {
  }

  /** Two packed words are equal exactly when all four fields are. */
  lemma MakeVersionInjective(a: bv8, b: bv8, c: bv8, d: bv8, a': bv8, b': bv8, c': bv8, d': bv8)
    ensures MakeVersion(a, b, c, d) == MakeVersion(a', b', c', d') <==> a == a' && b == b' && c == c' && d == d'
  {
    ExtractMakeVersion(a, b, c, d);
    ExtractMakeVersion(a', b', c', d');
  }

  /** The three-argument form leaves the local field 0. */
  lemma DefaultLocal(major: bv8, minor: bv8, patch: bv8)
    ensures MakeVersion(major, minor, patch) == MakeVersion(major, minor, patch, 0)
    ensures GetLocal(MakeVersion(major, minor, patch)) == 0
    ensures MakeVersion(major, minor, patch) & LocalMask == 0
  {
  }

  /** A byte placed at bit `k` of a word loses nothing. */
  lemma PlacedByteInjective(a: bv8, b: bv8, k: bv32)
    requires k == 0 || k == 8 || k == 16 || k == 24
    ensures (a as bv32 << k) == (b as bv32 << k) <==> a == b
  {
  }

  /** A field that is exactly the bits `mask` of its word, moved down by `k`,
      is equal in two words exactly when those bits are. */
  lemma FieldReadsOwnBits(r: bv8, r': bv8, v: bv32, w: bv32, mask: bv32, k: bv32)
    requires k == 0 || k == 8 || k == 16 || k == 24
    requires (r as bv32 << k) == v & mask && (r' as bv32 << k) == w & mask
    ensures r == r' <==> v & mask == w & mask
  {
    PlacedByteInjective(r, r', k);
  }

  /** Each extractor reads only its own byte: two words give the same field
      exactly when they agree on that field's bits, whatever the other bits. */
  lemma MajorReadsOwnByte(v: bv32, w: bv32)
    ensures GetMajor(v) == GetMajor(w) <==> v & MajorMask == w & MajorMask
  {
    FieldReadsOwnBits(GetMajor(v), GetMajor(w), v, w, MajorMask, 24);
  }

  lemma MinorReadsOwnByte(v: bv32, w: bv32)
    ensures GetMinor(v) == GetMinor(w) <==> v & MinorMask == w & MinorMask
  {
    FieldReadsOwnBits(GetMinor(v), GetMinor(w), v, w, MinorMask, 16);
  }

  lemma PatchReadsOwnByte(v: bv32, w: bv32)
    ensures GetPatch(v) == GetPatch(w) <==> v & PatchMask == w & PatchMask
  {
    FieldReadsOwnBits(GetPatch(v), GetPatch(w), v, w, PatchMask, 8);
  }

  lemma LocalReadsOwnByte(v: bv32, w: bv32)
    ensures GetLocal(v) == GetLocal(w) <==> v & LocalMask == w & LocalMask
  {
    FieldReadsOwnBits(GetLocal(v), GetLocal(w), v, w, LocalMask, 0);
  }

  /** One step of the comparison: a word made of a byte `hi` above `k` low bits
      `lo` compares by `hi` first and by `lo` on a tie. */
  lemma LeadingByteOrder(hi: bv8, hi': bv8, lo: bv32, lo': bv32, k: bv32)
    requires k == 8 || k == 16 || k == 24
    requires lo < 1 << k && lo' < 1 << k
    ensures ((hi as bv32 << k) | lo) < ((hi' as bv32 << k) | lo') <==> hi < hi' || (hi == hi' && lo < lo')
  {
  }

  /** Unsigned order on packed words is lexicographic order on the fields, so
      packed versions can be compared as numbers. */
  lemma MakeVersionOrder(a: bv8, b: bv8, c: bv8, d: bv8, a': bv8, b': bv8, c': bv8, d': bv8)
    ensures MakeVersion(a, b, c, d) < MakeVersion(a', b', c', d')
        <==> Precedes(Version(a, b, c, d), Version(a', b', c', d'))
  {
    LeadingByteOrder(c, c', d as bv32, d' as bv32, 8);
    var r := (c as bv32 << 8) | d as bv32;
    var r' := (c' as bv32 << 8) | d' as bv32;
    LeadingByteOrder(b, b', r, r', 16);
    var s := (b as bv32 << 16) | r;
    var s' := (b' as bv32 << 16) | r';
    LeadingByteOrder(a, a', s, s', 24);
  }

  /** Non-strict comparison of packed words, the form clients use to demand a
      minimum version, holds exactly when the first version does not come
      after the second. */
  lemma MakeVersionAtMost(a: bv8, b: bv8, c: bv8, d: bv8, a': bv8, b': bv8, c': bv8, d': bv8)
    ensures MakeVersion(a, b, c, d) <= MakeVersion(a', b', c', d')
        <==> !Precedes(Version(a', b', c', d'), Version(a, b, c, d))
  {
    MakeVersionOrder(a', b', c', d', a, b, c, d);
  }

  /** Appending a byte below a word of at most 24 bits multiplies by 256 and
      adds the byte. */
  lemma AppendByteValue(w: bv32, b: bv8)
    requires w < 0x100_0000
    ensures ((w << 8) | b as bv32) as int == w as int * 0x100 + b as int
  {
    assert (w << 8) as int == w as int * 0x100;
    assert (w << 8) & 0xFF == 0;
  }

  /** The numeric value of a packed word is the base-256 number whose digits
      are the fields, major most significant. */
  lemma MakeVersionValue(major: bv8, minor: bv8, patch: bv8, local: bv8)
    ensures MakeVersion(major, minor, patch, local) as int
         == major as int * 0x100_0000 + minor as int * 0x1_0000 + patch as int * 0x100 + local as int
  {
    var h1 := major as bv32;
    var h2 := (h1 << 8) | minor as bv32;
    var h3 := (h2 << 8) | patch as bv32;
    var h4 := (h3 << 8) | local as bv32;
    AppendByteValue(h1, minor);
    AppendByteValue(h2, patch);
    AppendByteValue(h3, local);
    assert h4 == MakeVersion(major, minor, patch, local);
  }

  /** The digits of a four-digit base-256 number. */
  lemma FourDigitNumberDigits(n: int, a: int, b: int, c: int, d: int)
    requires 0 <= a < 0x100 && 0 <= b < 0x100 && 0 <= c < 0x100 && 0 <= d < 0x100
    requires n == a * 0x100_0000 + b * 0x1_0000 + c * 0x100 + d
    ensures n / 0x100_0000 == a
    ensures n / 0x1_0000 % 0x100 == b
    ensures n / 0x100 % 0x100 == c
    ensures n % 0x100 == d
  {
    assert n == a * 0x100_0000 + (b * 0x1_0000 + c * 0x100 + d);
    assert 0 <= b * 0x1_0000 + c * 0x100 + d < 0x100_0000;
    assert n == (a * 0x100 + b) * 0x1_0000 + (c * 0x100 + d);
    assert 0 <= c * 0x100 + d < 0x1_0000;
    assert n / 0x1_0000 == a * 0x100 + b;
    assert n == (a * 0x1_0000 + b * 0x100 + c) * 0x100 + d;
    assert n / 0x100 == a * 0x1_0000 + b * 0x100 + c;
  }

  /** Every word is the base-256 number whose digits are its four fields. */
  lemma WordValue(v: bv32)
    ensures v as int
         == GetMajor(v) as int * 0x100_0000 + GetMinor(v) as int * 0x1_0000 + GetPatch(v) as int * 0x100 + GetLocal(v) as int
  {
    MakeVersionOfFields(v);
    MakeVersionValue(GetMajor(v), GetMinor(v), GetPatch(v), GetLocal(v));
  }

  /** Each extractor is a digit of the word read as a base-256 number. */
  lemma ExtractorValues(v: bv32)
    ensures GetMajor(v) as int == v as int / 0x100_0000
    ensures GetMinor(v) as int == v as int / 0x1_0000 % 0x100
    ensures GetPatch(v) as int == v as int / 0x100 % 0x100
    ensures GetLocal(v) as int == v as int % 0x100
  {
    WordValue(v);
    FourDigitNumberDigits(v as int, GetMajor(v) as int, GetMinor(v) as int, GetPatch(v) as int, GetLocal(v) as int);
  }

  /** The four fields as base-256 digits, major first. */
  function Digits(x: Version): seq<Base256.Digit> {
    [x.major as int, x.minor as int, x.patch as int, x.local as int]
  }

  /** Four digits written out. */
  lemma FourDigitValue(a: Base256.Digit, b: Base256.Digit, c: Base256.Digit, d: Base256.Digit)
    ensures Base256.Value([a, b, c, d]) == a * 0x100_0000 + b * 0x1_0000 + c * 0x100 + d
  {
    assert [d][1..] == [];
    assert Base256.Value([d]) == d;
    assert [c, d][1..] == [d];
    assert Base256.Value([c, d]) == c * 0x100 + d;
    assert [b, c, d][1..] == [c, d];
    assert Base256.Value([b, c, d]) == b * 0x1_0000 + Base256.Value([c, d]);
    assert [a, b, c, d][1..] == [b, c, d];
    assert Base256.Pow256(3) == 0x100_0000;
  }

  /** The packed word, read as a number, is the number whose base-256 digits
      are the fields. */
  lemma MakeVersionIsDigitValue(x: Version)
    ensures MakeVersion(x.major, x.minor, x.patch, x.local) as int == Base256.Value(Digits(x))
  {
    MakeVersionValue(x.major, x.minor, x.patch, x.local);
    FourDigitValue(x.major as int, x.minor as int, x.patch as int, x.local as int);
  }

  /** Bytes compare as their numeric values. */
  lemma ByteOrder(p: bv8, q: bv8)
    ensures p < q <==> p as int < q as int
    ensures p == q <==> p as int == q as int
  {
  }

  /** Lexicographic order on four digits, written out. */
  lemma FourDigitLexLess(a: Base256.Digit, b: Base256.Digit, c: Base256.Digit, d: Base256.Digit,
                         a': Base256.Digit, b': Base256.Digit, c': Base256.Digit, d': Base256.Digit)
    ensures Base256.LexLess([a, b, c, d], [a', b', c', d'])
        <==> a < a' || (a == a' && (b < b' || (b == b' && (c < c' || (c == c' && d < d')))))
  {
    assert !Base256.LexLess([], []);
    Base256.LexLessCons(d, d', [], []);
    Base256.LexLessCons(c, c', [d], [d']);
    Base256.LexLessCons(b, b', [c, d], [c', d']);
    Base256.LexLessCons(a, a', [b, c, d], [b', c', d']);
    assert [d] + [] == [d] && [d'] + [] == [d'];
    assert [c] + [d] == [c, d] && [c'] + [d'] == [c', d'];
    assert [b] + [c, d] == [b, c, d] && [b'] + [c', d'] == [b', c', d'];
    assert [a] + [b, c, d] == [a, b, c, d] && [a'] + [b', c', d'] == [a', b', c', d'];
  }

  /** Precedence on fields read as numbers. */
  lemma PrecedesOnValues(x: Version, y: Version)
    ensures var a, b, c, d := x.major as int, x.minor as int, x.patch as int, x.local as int;
            var a', b', c', d' := y.major as int, y.minor as int, y.patch as int, y.local as int;
            Precedes(x, y) <==> a < a' || (a == a' && (b < b' || (b == b' && (c < c' || (c == c' && d < d')))))
  {
    ByteOrder(x.major, y.major);
    ByteOrder(x.minor, y.minor);
    ByteOrder(x.patch, y.patch);
    ByteOrder(x.local, y.local);
  }

  /** Lexicographic order on the digits of two versions, written out. */
  lemma DigitsLexLess(x: Version, y: Version)
    ensures var a, b, c, d := x.major as int, x.minor as int, x.patch as int, x.local as int;
            var a', b', c', d' := y.major as int, y.minor as int, y.patch as int, y.local as int;
            (Base256.LexLess(Digits(x), Digits(y))
             <==> a < a' || (a == a' && (b < b' || (b == b' && (c < c' || (c == c' && d < d'))))))
  {
    FourDigitLexLess(x.major as int, x.minor as int, x.patch as int, x.local as int,
                     y.major as int, y.minor as int, y.patch as int, y.local as int);
  }

  /** Field-by-field precedence is lexicographic order on the digits. */
  lemma PrecedesIsLexLess(x: Version, y: Version)
    ensures Precedes(x, y) <==> Base256.LexLess(Digits(x), Digits(y))
  {
    PrecedesOnValues(x, y);
    DigitsLexLess(x, y);
  }

  /** Packed versions compared as unsigned numbers compare lexicographically
      on their fields: the order version numbers are made for, derived from
      the arithmetic reading of the word. This is a second, independent
      proof of the order property of `MakeVersionOrder`, with the word read
      as an unsigned number instead of as a bit-vector. */
  lemma MakeVersionNumericOrder(x: Version, y: Version)
    ensures MakeVersion(x.major, x.minor, x.patch, x.local) as int < MakeVersion(y.major, y.minor, y.patch, y.local) as int
        <==> Precedes(x, y)
  {
    MakeVersionIsDigitValue(x);
    MakeVersionIsDigitValue(y);
    Base256.LexLessIsNumericLess(Digits(x), Digits(y));
    PrecedesIsLexLess(x, y);
  }
}
