/** File names as the preprocessing code builds and compares them:
    decimal rendering of tile origins, os.path.splitext, str.split('.')[0],
    the lower-cased suffix filter and the code-point order used by sorted(). */
module Text {

  predicate IsDigit(c: char) { '0' <= c <= '9' }

  predicate AllDigits(s: string) { forall i :: 0 <= i < |s| ==> IsDigit(s[i]) }

  function DigitChar(d: nat): (c: char)
    requires d < 10
    ensures IsDigit(c) && c as int - '0' as int == d
  {
    ('0' as int + d) as char
  }

  /** f"{n}" for a non-negative int: decimal, no sign, no leading zeros. */
  function Decimal(n: nat): (s: string)
    ensures 0 < |s| && AllDigits(s)
    ensures |s| > 1 ==> s[0] != '0'
  {
    if n < 10 then [DigitChar(n)] else Decimal(n / 10) + [DigitChar(n % 10)]
  }

  /** The value of a string of decimal digits (the inverse of Decimal). */
  function DecimalValue(s: string): nat
    requires AllDigits(s)
  {
    if s == [] then 0
    else DecimalValue(s[..|s| - 1]) * 10 + (s[|s| - 1] as int - '0' as int)
  }

  lemma {:induction false} DecimalRoundTrip(n: nat)
    ensures DecimalValue(Decimal(n)) == n
  {
    if n >= 10 {
      var s := Decimal(n);
      assert s[..|s| - 1] == Decimal(n / 10);
      DecimalRoundTrip(n / 10);
    }
  }

  lemma DecimalInjective(a: nat, b: nat)
    requires Decimal(a) == Decimal(b)
    ensures a == b
  {
    DecimalRoundTrip(a);
    DecimalRoundTrip(b);
  }

  /** name.split('.')[0]: the text before the first dot, or the whole name. */
  function FirstDotPrefix(s: string): (r: string)
    ensures |r| <= |s| && r == s[..|r|]
    ensures '.' !in r
    ensures |r| < |s| ==> s[|r|] == '.'
  {
    if s == [] then []
    else if s[0] == '.' then []
    else [s[0]] + FirstDotPrefix(s[1..])
  }

  /** Index of the last '.', or -1 when there is none. */
  function LastDot(s: string): (k: int)
    ensures -1 <= k < |s|
    ensures k >= 0 ==> s[k] == '.'
    ensures forall i :: k < i < |s| ==> s[i] != '.'
  {
    if s == [] then -1
    else if s[|s| - 1] == '.' then |s| - 1
    else LastDot(s[..|s| - 1])
  }

  predicate AllDots(s: string) { forall i :: 0 <= i < |s| ==> s[i] == '.' }

  /** os.path.splitext on a bare file name: the extension starts at the last
      dot, unless everything before that dot is dots (".bashrc", "..x"),
      in which case there is no extension. */
  function SplitExt(s: string): (r: (string, string))
    ensures r.0 + r.1 == s
    ensures r.1 == [] || (r.1[0] == '.' && '.' !in r.1[1..] && !AllDots(r.0))
  {
    var k := LastDot(s);
    if k >= 0 && !AllDots(s[..k]) then
      assert s[k..][1..] == s[k + 1..];
      (s[..k], s[k..])
    else (s, [])
  }

  /** os.path.splitext(name)[0] */
  function Stem(s: string): string { SplitExt(s).0 }

  /** A name ending in an extension with one leading dot, after a base that
      holds a non-dot character, has that base as its splitext stem. */
  lemma StemOfDottedName(base: string, ext: string)
    requires 0 < |ext| && ext[0] == '.' && '.' !in ext[1..]
    requires !AllDots(base)
    ensures SplitExt(base + ext) == (base, ext)
  {
    var s := base + ext;
    var k := LastDot(s);
    assert s[|base|] == '.';
    assert forall i :: |base| < i < |s| ==> s[i] == ext[1..][i - |base| - 1];
    assert s[..k] == base;
  }

  function LowerChar(c: char): char
  {
    if 'A' <= c <= 'Z' then (c as int + 32) as char else c
  }

  /** str.lower() restricted to ASCII letters. */
  function Lower(s: string): (r: string)
    ensures |r| == |s|
  {
    seq(|s|, i requires 0 <= i < |s| => LowerChar(s[i]))
  }

  predicate EndsWith(s: string, suffix: string)
  {
    |suffix| <= |s| && s[|s| - |suffix|..] == suffix
  }

  /** filename.lower().endswith(('.jpg', '.png', '.tif', '.tiff')) */
  predicate HasImageSuffix(name: string)
  {
    var l := Lower(name);
    EndsWith(l, ".jpg") || EndsWith(l, ".png") || EndsWith(l, ".tif") || EndsWith(l, ".tiff")
  }

  /** Python's str < : lexicographic on code points. */
  predicate StrLess(a: string, b: string)
  {
    if a == [] then b != []
    else if b == [] then false
    else if a[0] != b[0] then a[0] < b[0]
    else StrLess(a[1..], b[1..])
  }

  /** The output of sorted() on names that a directory listing holds once each. */
  predicate SortedStrict(s: seq<string>)
  {
    forall i, j :: 0 <= i < j < |s| ==> StrLess(s[i], s[j])
  }

  predicate Distinct<T(==)>(s: seq<T>)
  {
    forall i, j :: 0 <= i < j < |s| ==> s[i] != s[j]
  }

  lemma {:induction false} StrLessIrreflexive(a: string)
    ensures !StrLess(a, a)
  {
    if a != [] { StrLessIrreflexive(a[1..]); }
  }

  lemma SortedIsDistinct(s: seq<string>)
    requires SortedStrict(s)
    ensures Distinct(s)
  {
    forall i, j | 0 <= i < j < |s| ensures s[i] != s[j] {
      StrLessIrreflexive(s[i]);
    }
  }

  lemma NoSeparatorInDigits(d: string)
    requires AllDigits(d)
    ensures '.' !in d && '_' !in d
  {
    forall i | 0 <= i < |d| ensures d[i] != '.' && d[i] != '_' {
      assert IsDigit(d[i]);
    }
  }

  /** f"{stem}_{x}_{y}{ext}", the name of the tile at origin (x, y). */
  function TileName(stem: string, x: nat, y: nat, ext: string): string
  {
    stem + "_" + Decimal(x) + "_" + Decimal(y) + ext
  }

  /** Splitting at the last underscore: digits hold no underscore, so a name
      ending in "_" + digits is cut there in one way only. */
  lemma SplitAtLastUnderscore(a: string, d1: string, b: string, d2: string)
    requires AllDigits(d1) && AllDigits(d2)
    requires a + "_" + d1 == b + "_" + d2
    ensures a == b && d1 == d2
  {
    var s := a + "_" + d1;
    var L := |s|;
    NoSeparatorInDigits(d1);
    NoSeparatorInDigits(d2);
    assert s[L - |d1| - 1] == '_' && s[L - |d2| - 1] == '_';
    assert forall i :: L - |d1| <= i < L ==> s[i] == d1[i - (L - |d1|)];
    assert forall i :: L - |d2| <= i < L ==> s[i] == d2[i - (L - |d2|)];
    assert |d1| == |d2|;
    assert a == s[..|a|] && b == (b + "_" + d2)[..|b|];
    assert d1 == s[|a| + 1..] && d2 == (b + "_" + d2)[|b| + 1..];
  }

  /** Tile names determine stem and origin: two tiles of one kind share a
      name only when they come from the same stem and the same origin. */
  lemma TileNameInjective(s1: string, x1: nat, y1: nat, s2: string, x2: nat, y2: nat, ext: string)
    requires TileName(s1, x1, y1, ext) == TileName(s2, x2, y2, ext)
    ensures s1 == s2 && x1 == x2 && y1 == y2
  {
    var n1 := s1 + "_" + Decimal(x1) + "_" + Decimal(y1);
    var n2 := s2 + "_" + Decimal(x2) + "_" + Decimal(y2);
    assert n1 + ext == TileName(s1, x1, y1, ext);
    assert n2 + ext == TileName(s2, x2, y2, ext);
    assert n1 == (n1 + ext)[..|n1|];
    assert |n1| == |n2|;
    assert n1 == n2;
    SplitAtLastUnderscore(s1 + "_" + Decimal(x1), Decimal(y1), s2 + "_" + Decimal(x2), Decimal(y2));
    SplitAtLastUnderscore(s1, Decimal(x1), s2, Decimal(x2));
    DecimalInjective(x1, x2);
    DecimalInjective(y1, y2);
  }

  /** The image tile "stem_x_y.jpg" and the mask tile "stem_x_y.png" have the
      same splitext stem, "stem_x_y", whatever the source stem is. */
  lemma TileAndMaskShareStem(stem: string, x: nat, y: nat)
    ensures Stem(TileName(stem, x, y, ".jpg")) == stem + "_" + Decimal(x) + "_" + Decimal(y)
    ensures Stem(TileName(stem, x, y, ".png")) == stem + "_" + Decimal(x) + "_" + Decimal(y)
  {
    var base := stem + "_" + Decimal(x) + "_" + Decimal(y);
    assert base[|stem|] == '_';
    StemOfDottedName(base, ".jpg");
    StemOfDottedName(base, ".png");
  }

  /** The image tile and mask tile of one origin also agree on the text before
      their first dot, which is all split_train_val compares. */
  lemma {:induction false} FirstDotPrefixOfExtension(base: string, e1: string, e2: string)
    requires 0 < |e1| && e1[0] == '.' && 0 < |e2| && e2[0] == '.'
    ensures FirstDotPrefix(base + e1) == FirstDotPrefix(base + e2)
    ensures '.' !in base ==> FirstDotPrefix(base + e1) == base
  {
    if base != [] {
      assert (base + e1)[1..] == base[1..] + e1;
      assert (base + e2)[1..] == base[1..] + e2;
      FirstDotPrefixOfExtension(base[1..], e1, e2);
    }
  }

  lemma TilePairFirstDotPrefix(stem: string, x: nat, y: nat)
    ensures FirstDotPrefix(TileName(stem, x, y, ".jpg")) == FirstDotPrefix(TileName(stem, x, y, ".png"))
    ensures '.' !in stem ==>
      FirstDotPrefix(TileName(stem, x, y, ".jpg")) == Stem(TileName(stem, x, y, ".jpg"))
  {
    var base := stem + "_" + Decimal(x) + "_" + Decimal(y);
    FirstDotPrefixOfExtension(base, ".jpg", ".png");
    TileAndMaskShareStem(stem, x, y);
    NoSeparatorInDigits(Decimal(x));
    NoSeparatorInDigits(Decimal(y));
  }
}
