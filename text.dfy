/** String operations that the wrappers take from their string classes:
    splitting a key on a separator with empty parts skipped, decimal
    rendering of integers, searching, replacing every occurrence, taking a
    tail, and cutting a path into directory, base name and suffix. */
module Text {
  import opened Wrappers

  /** Index of the first `c` in `s`, or `|s|` when `s` has none. */
  function FirstIndexOf(s: string, c: char): (i: nat)
    ensures i <= |s|
    ensures i < |s| ==> s[i] == c
    ensures forall j :: 0 <= j < i ==> s[j] != c
  {
    if s == [] then 0
    else if s[0] == c then 0
    else 1 + FirstIndexOf(s[1..], c)
  }

  /** `s` cut at every `sep` with the empty pieces dropped (a split with the
      skip-empty-parts option). Every part is non-empty and free of `sep`. */
  function SplitSkipEmpty(s: string, sep: char): (parts: seq<string>)
    ensures forall p :: p in parts ==> p != [] && sep !in p
    decreases |s|
  {
    var i := FirstIndexOf(s, sep);
    var head := if i == 0 then [] else [s[..i]];
    if i == |s| then head else head + SplitSkipEmpty(s[i + 1..], sep)
  }

  /** The parts written one after the other with `sep` between them. */
  function Join(parts: seq<string>, sep: char): string
  {
    if parts == [] then []
    else if |parts| == 1 then parts[0]
    else parts[0] + [sep] + Join(parts[1..], sep)
  }

  lemma {:induction false} FirstIndexPast(p: string, tail: string, c: char)
    requires c !in p
    ensures FirstIndexOf(p + tail, c) == |p| + FirstIndexOf(tail, c)
  {
    if p == [] {
      assert p + tail == tail;
    } else {
      assert p[0] in p && (p + tail)[0] == p[0];
      assert (p + tail)[1..] == p[1..] + tail;
      FirstIndexPast(p[1..], tail, c);
    }
  }

  /** Splitting a joined key gives back its parts, when no part is empty or
      holds the separator. */
  lemma {:induction false} SplitJoin(parts: seq<string>, sep: char)
    requires forall p :: p in parts ==> p != [] && sep !in p
    ensures SplitSkipEmpty(Join(parts, sep), sep) == parts
  {
    if parts == [] {
    } else {
      var p := parts[0];
      assert p in parts;
      var s := Join(parts, sep);
      var i := FirstIndexOf(s, sep);
      if |parts| == 1 {
        assert s == p + [];
        FirstIndexPast(p, [], sep);
        assert i == |s| && s[..i] == p;
        assert SplitSkipEmpty(s, sep) == [p];
      } else {
        var rest := Join(parts[1..], sep);
        assert s == p + [sep] + rest;
        FirstIndexPast(p, [sep] + rest, sep);
        assert s == p + ([sep] + rest);
        assert i == |p|;
        assert s[..i] == p;
        assert s[i + 1..] == rest;
        assert forall q :: q in parts[1..] ==> q in parts;
        SplitJoin(parts[1..], sep);
        assert SplitSkipEmpty(s, sep) == [p] + SplitSkipEmpty(rest, sep);
      }
    }
  }

  /** A key has no parts exactly when it is made of separators only. */
  lemma {:induction false} SplitEmptyIff(s: string, sep: char)
    ensures SplitSkipEmpty(s, sep) == [] <==> forall j :: 0 <= j < |s| ==> s[j] == sep
  {
    var i := FirstIndexOf(s, sep);
    if i == |s| {
      if s != [] {
        assert s[0] != sep;
        assert SplitSkipEmpty(s, sep) == [s[..i]];
      }
    } else if i == 0 {
      SplitEmptyIff(s[1..], sep);
      assert forall j :: 1 <= j < |s| ==> s[j] == s[1..][j - 1];
    } else {
      assert s[0] != sep;
      assert SplitSkipEmpty(s, sep)[0] == s[..i];
    }
  }

  /** The character of decimal digit `d`. */
  function DigitChar(d: nat): char
    requires d < 10
  {
    ('0' as int + d) as char
  }

  predicate IsDigit(c: char)
  {
    '0' <= c <= '9'
  }

  /** The decimal digits of `n`, most significant first, without leading zeros. */
  function NaturalDigits(n: nat): (s: string)
    ensures |s| > 0 && forall j :: 0 <= j < |s| ==> IsDigit(s[j])
  {
    if n < 10 then [DigitChar(n)] else NaturalDigits(n / 10) + [DigitChar(n % 10)]
  }

  /** Decimal rendering of an integer, with a leading '-' when it is
      negative (what integer-to-string conversion produces). */
  function Decimal(n: int): string
  {
    if n < 0 then "-" + NaturalDigits(-n) else NaturalDigits(n)
  }

  /** The value of a string of decimal digits. */
  function DigitsValue(s: string): nat
    requires forall j :: 0 <= j < |s| ==> IsDigit(s[j])
  {
    if s == [] then 0
    else
      assert IsDigit(s[|s| - 1]);
      DigitsValue(s[..|s| - 1]) * 10 + (s[|s| - 1] as int - '0' as int)
  }

  /** Reads back what `Decimal` writes: an optional '-' and at least one digit. */
  function ParseDecimal(s: string): Option<int>
  {
    if s != [] && s[0] == '-' then
      var t := s[1..];
      if t != [] && forall j :: 0 <= j < |t| ==> IsDigit(t[j]) then var v: int := DigitsValue(t); Some(-v) else None
    else if s != [] && forall j :: 0 <= j < |s| ==> IsDigit(s[j]) then Some(DigitsValue(s))
    else None
  }

  lemma {:induction false} NaturalDigitsValue(n: nat)
    ensures DigitsValue(NaturalDigits(n)) == n
  {
    if n >= 10 {
      var s := NaturalDigits(n);
      assert s[..|s| - 1] == NaturalDigits(n / 10);
      NaturalDigitsValue(n / 10);
    }
  }

  /** Round trip: parsing a rendered integer gives the integer back. */
  lemma DecimalRoundTrip(n: int)
    ensures ParseDecimal(Decimal(n)) == Some(n)
  {
    if n < 0 {
      assert Decimal(n)[1..] == NaturalDigits(-n);
      NaturalDigitsValue(-n);
    } else {
      assert Decimal(n)[0] != '-';
      NaturalDigitsValue(n);
    }
  }

  /** Distinct integers have distinct renderings. */
  lemma DecimalInjective(a: int, b: int)
    requires Decimal(a) == Decimal(b)
    ensures a == b
  {
    DecimalRoundTrip(a);
    DecimalRoundTrip(b);
  }

  /** `pat` occurs somewhere in `s`. */
  predicate Contains(s: string, pat: string)
    decreases |s|
  {
    |s| >= |pat| && (s[..|pat|] == pat || Contains(s[1..], pat))
  }

  /** Position of the first occurrence of `pat` in `s`, or -1 when there is
      none (string search as the string class does it). */
  function IndexOf(s: string, pat: string): (r: int)
    ensures r == -1 || 0 <= r <= |s| - |pat|
    ensures r == -1 <==> !Contains(s, pat)
    ensures r >= 0 ==> s[r..r + |pat|] == pat
    ensures r > 0 ==> !Contains(s[..r + |pat| - 1], pat)
    decreases |s|
  {
    if |s| < |pat| then -1
    else if s[..|pat|] == pat then 0
    else
      var r := IndexOf(s[1..], pat);
      if r == -1 then -1
      else
        assert s[..r + |pat|][..|pat|] == s[..|pat|];
        assert s[..r + |pat|][1..] == s[1..][..r + |pat| - 1];
        r + 1
  }

  /** Every non-overlapping occurrence of `pat`, scanned left to right, is
      replaced by `rep`; the inserted text is not scanned again. */
  function ReplaceAll(s: string, pat: string, rep: string): string
    requires pat != []
    decreases |s|
  {
    if |s| < |pat| then s
    else if s[..|pat|] == pat then rep + ReplaceAll(s[|pat|..], pat, rep)
    else [s[0]] + ReplaceAll(s[1..], pat, rep)
  }

  /** Replacing a pattern that does not occur changes nothing. */
  lemma {:induction false} ReplaceAbsent(s: string, pat: string, rep: string)
    requires pat != [] && !Contains(s, pat)
    ensures ReplaceAll(s, pat, rep) == s
    decreases |s|
  {
    if |s| >= |pat| {
      ReplaceAbsent(s[1..], pat, rep);
      assert [s[0]] + s[1..] == s;
    }
  }

  /** Replacing inside a text that is exactly the pattern gives the replacement. */
  lemma ReplaceWhole(pat: string, rep: string)
    requires pat != []
    ensures ReplaceAll(pat, pat, rep) == rep
  {
    assert pat[..|pat|] == pat;
    assert pat[|pat|..] == [];
  }

  /** The tail of `s` from position `pos` on; empty when `pos` lies past the
      end, the whole string when it is negative. */
  function MidFrom(s: string, pos: int): (r: string)
    ensures 0 <= pos <= |s| ==> r == s[pos..]
    ensures pos > |s| ==> r == []
  {
    if pos > |s| then [] else if pos < 0 then s else s[pos..]
  }

  /** The last segment of a slash-separated path: the text after its last
      '/', empty when the path ends with '/'. */
  function LastSegment(path: string): (r: string)
    ensures '/' !in r
    ensures |r| <= |path| && r == path[|path| - |r|..]
    ensures |r| < |path| ==> path[|path| - |r| - 1] == '/'
  {
    if path == [] then []
    else if path[|path| - 1] == '/' then []
    else
      var r := LastSegment(path[..|path| - 1]);
      assert path[..|path| - 1][|path| - 1 - |r|..] + [path[|path| - 1]] == path[|path| - |r| - 1..];
      r + [path[|path| - 1]]
  }

  /** A file name cut at its last dot into complete base name and suffix;
      the suffix is empty when there is no dot. */
  function BaseAndSuffix(name: string): (r: (string, string))
    ensures '.' !in r.1
    ensures '.' in name ==> r.0 + "." + r.1 == name
    ensures '.' !in name ==> r == (name, "")
  {
    if name == [] then ([], [])
    else if name[|name| - 1] == '.' then (name[..|name| - 1], [])
    else
      var (b, x) := BaseAndSuffix(name[..|name| - 1]);
      if '.' in name[..|name| - 1] then
        assert b + "." + x + [name[|name| - 1]] == name;
        (b, x + [name[|name| - 1]])
      else
        assert name == name[..|name| - 1] + [name[|name| - 1]];
        (name, [])
  }

  /** A path without '/' is its own last segment. */
  lemma LastSegmentNoSlash(path: string)
    requires '/' !in path
    ensures LastSegment(path) == path
  {
  }

  /** The last segment of "<dir>/<name>" is the name, when it has no '/'. */
  lemma LastSegmentAfterSlash(dir: string, name: string)
    requires '/' !in name
    ensures LastSegment(dir + "/" + name) == name
  {
    var path := dir + "/" + name;
    var r := LastSegment(path);
    assert path[|path| - |name|..] == name;
    assert path[|path| - |name| - 1] == '/';
    assert |r| <= |name|;
  }

  /** Cutting "<base>.<suffix>" at its last dot gives back base and suffix,
      when the suffix has no dot. */
  lemma {:induction false} BaseAndSuffixOf(base: string, ext: string)
    requires '.' !in ext
    ensures BaseAndSuffix(base + "." + ext) == (base, ext)
    decreases |ext|
  {
    var name := base + "." + ext;
    if ext == [] {
      assert name[..|name| - 1] == base;
    } else {
      var init := ext[..|ext| - 1];
      assert forall c :: c in init ==> c in ext;
      BaseAndSuffixOf(base, init);
      assert name[..|name| - 1] == base + "." + init;
      assert '.' in name[..|name| - 1] by {
        assert (base + "." + init)[|base|] == '.';
      }
      assert ext[|ext| - 1] in ext;
      assert init + [name[|name| - 1]] == ext;
    }
  }

  /** A key without separators is split into itself alone. */
  lemma LiteralKeyParts(key: string, sep: char)
    requires key != [] && sep !in key
    ensures SplitSkipEmpty(key, sep) == [key]
  {
    SplitJoin([key], sep);
  }
}
