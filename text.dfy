/** The .NET string operations the modelled code relies on. A C# `null`
    string is modelled as the empty string: every check below treats the two
    alike. */
module Text {

  // ---------------------------------------------------------------- case

  /** Lower-casing of one character; only the ASCII letters are folded. */
  function LowerChar(c: char): char
  {
    if 'A' <= c <= 'Z' then (c as int + 32) as char else c
  }

  /** `string.ToLower()`, ASCII letters only. */
  function ToLower(s: string): (r: string)
    ensures |r| == |s|
    ensures forall i | 0 <= i < |s| :: r[i] == LowerChar(s[i])
  {
    seq(|s|, i requires 0 <= i < |s| => LowerChar(s[i]))
  }

  /** `a.Equals(b, StringComparison.InvariantCultureIgnoreCase)`, ASCII letters only. */
  predicate EqualsIgnoreCase(a: string, b: string)
  {
    ToLower(a) == ToLower(b)
  }

  // ---------------------------------------------------------- blank tests

  /** `char.IsWhiteSpace`: the Unicode space separators, the line and
      paragraph separators, and U+0009 to U+000D, U+0085, U+00A0. */
  predicate IsWhiteSpace(c: char)
  {
    var n := c as int;
    n == 0x20 || 0x09 <= n <= 0x0D || n == 0x85 || n == 0xA0 || n == 0x1680
    || 0x2000 <= n <= 0x200A || n == 0x2028 || n == 0x2029 || n == 0x202F
    || n == 0x205F || n == 0x3000
  }

  /** `string.IsNullOrWhiteSpace`. */
  predicate IsNullOrWhiteSpace(s: string)
  {
    forall i | 0 <= i < |s| :: IsWhiteSpace(s[i])
  }

  /** `string.IsNullOrEmpty`. */
  predicate IsNullOrEmpty(s: string)
  {
    |s| == 0
  }

  // ------------------------------------------------------------ extension

  /** The characters `Path.GetExtension` stops at when scanning backwards. */
  predicate IsSeparator(c: char)
  {
    c == '/' || c == '\\'
  }

  /** Position `k` of `path` holds a dot after which no further dot and no
      directory separator occurs. */
  ghost predicate DotAt(path: string, k: int)
  {
    0 <= k < |path| && path[k] == '.'
    && forall j | k < j < |path| :: path[j] != '.' && !IsSeparator(path[j])
  }

  /** `Path.GetExtension(path)`: from the last dot of the last path segment
      to the end, or the empty string when that segment has no dot or ends
      with one. */
  function GetExtension(path: string): (ext: string)
    ensures forall k | 0 <= k < |path| - 1 && DotAt(path, k) :: ext == path[k..]
    ensures ext != [] ==> exists k | 0 <= k < |path| - 1 :: DotAt(path, k) && ext == path[k..]
  {
    ExtensionScan(path, |path|)
  }

  /** The backward scan of `GetExtension`, at position `i`; everything from
      `i` on has already been seen to hold neither a dot nor a separator. */
  function ExtensionScan(path: string, i: nat): (ext: string)
    requires i <= |path|
    requires forall j | i <= j < |path| :: path[j] != '.' && !IsSeparator(path[j])
    ensures forall k | 0 <= k < i && k < |path| - 1 && DotAt(path, k) :: ext == path[k..]
    ensures ext != [] ==> exists k | 0 <= k < i && k < |path| - 1 :: DotAt(path, k) && ext == path[k..]
    decreases i
  {
    if i == 0 then []
    else if path[i - 1] == '.' then
      assert DotAt(path, i - 1);
      if i == |path| then [] else path[i - 1..]
    else if IsSeparator(path[i - 1]) then []
    else ExtensionScan(path, i - 1)
  }

  /** What `GetExtension` returns when it is not empty: a dot followed by at
      least one character, none of them a dot or a separator. */
  ghost predicate IsExtension(ext: string)
  {
    |ext| >= 2 && ext[0] == '.'
    && forall j | 1 <= j < |ext| :: ext[j] != '.' && !IsSeparator(ext[j])
  }

  lemma ExtensionShape(path: string)
    ensures GetExtension(path) == [] || IsExtension(GetExtension(path))
  {
    var ext := GetExtension(path);
    if ext != [] {
      var k :| 0 <= k < |path| - 1 && DotAt(path, k) && ext == path[k..];
      forall j | 1 <= j < |ext| ensures ext[j] != '.' && !IsSeparator(ext[j]) {
        assert ext[j] == path[k + j];
      }
    }
  }

  /** Whatever precedes an extension, the extension is what `GetExtension`
      finds: a stored name built as `<anything><extension>` keeps it. */
  lemma ExtensionOfAppended(prefix: string, ext: string)
    requires IsExtension(ext)
    ensures GetExtension(prefix + ext) == ext
  {
    var path := prefix + ext;
    var k := |prefix|;
    forall j | k < j < |path| ensures path[j] != '.' && !IsSeparator(path[j]) {
      assert path[j] == ext[j - k];
    }
    assert DotAt(path, k);
    assert path[k..] == ext;
  }

  // ------------------------------------------------------------ join/split

  /** `string.Join(sep, xs)`. */
  function Join(sep: string, xs: seq<string>): string
  {
    if |xs| == 0 then ""
    else if |xs| == 1 then xs[0]
    else xs[0] + sep + Join(sep, xs[1..])
  }

  /** `s.Split(c)`: every segment between occurrences of `c`, empty ones
      included. */
  function Split(s: string, c: char): (parts: seq<string>)
    ensures |parts| >= 1
    decreases |s|
  {
    if |s| == 0 then [""]
    else
      var rest := Split(s[1..], c);
      if s[0] == c then [""] + rest
      else [[s[0]] + rest[0]] + rest[1..]
  }

  /** Splitting a text that starts with a segment free of `c` puts that
      segment at the head of the first part. */
  lemma {:induction false} SplitAfterSegment(x: string, t: string, c: char)
    requires c !in x
    ensures Split(x + t, c) == [x + Split(t, c)[0]] + Split(t, c)[1..]
    decreases |x|
  {
    if |x| > 0 {
      assert (x + t)[1..] == x[1..] + t;
      SplitAfterSegment(x[1..], t, c);
      assert [x[0]] + (x[1..] + Split(t, c)[0]) == x + Split(t, c)[0];
    } else {
      assert x + t == t;
      assert x + Split(t, c)[0] == Split(t, c)[0];
      assert Split(t, c) == [Split(t, c)[0]] + Split(t, c)[1..];
    }
  }

  /** Joining segments that do not contain `c` with `c` and splitting on `c`
      gives the segments back. */
  lemma {:induction false} SplitJoin(xs: seq<string>, c: char)
    requires |xs| > 0
    requires forall i | 0 <= i < |xs| :: c !in xs[i]
    ensures Split(Join([c], xs), c) == xs
    decreases |xs|
  {
    if |xs| == 1 {
      SplitAfterSegment(xs[0], "", c);
      assert xs[0] + "" == xs[0];
    } else {
      var tail := Join([c], xs[1..]);
      SplitJoin(xs[1..], c);
      assert Join([c], xs) == xs[0] + ([c] + tail);
      SplitAfterSegment(xs[0], [c] + tail, c);
      assert ([c] + tail)[1..] == tail;
      assert Split([c] + tail, c) == [""] + Split(tail, c);
      assert xs[0] + "" == xs[0];
      assert [xs[0]] + xs[1..] == xs;
    }
  }

  /** The last part of `Split(s, c)` holds no `c`, and `s` ends with it,
      right after the last `c` or as the whole text; a text split into one
      part is that part. */
  lemma {:induction false} SplitLast(s: string, c: char)
    ensures var last := Split(s, c)[|Split(s, c)| - 1];
      c !in last && |last| <= |s| && s[|s| - |last|..] == last
      && (|last| == |s| || s[|s| - |last| - 1] == c)
      && (|Split(s, c)| > 1 ==> |last| < |s|)
    ensures |Split(s, c)| == 1 ==> Split(s, c)[0] == s
    decreases |s|
  {
    if |s| > 0 {
      SplitLast(s[1..], c);
      var rest := Split(s[1..], c);
      var last := rest[|rest| - 1];
      assert s[|s| - |last|..] == s[1..][|s| - 1 - |last|..];
      if |last| < |s| - 1 {
        assert s[|s| - |last| - 1] == s[1..][|s| - 1 - |last| - 1];
      }
      if s[0] != c && |rest| == 1 {
        assert Split(s, c) == [[s[0]] + rest[0]];
        assert s == [s[0]] + s[1..];
      }
    }
  }

  // --------------------------------------------------------------- replace

  /** `s.Replace(pat, rep)`: every non-overlapping occurrence of `pat`, from
      left to right, replaced by `rep`. */
  function Replace(s: string, pat: string, rep: string): string
    requires |pat| > 0
    decreases |s|
  {
    if |s| < |pat| then s
    else if s[..|pat|] == pat then rep + Replace(s[|pat|..], pat, rep)
    else [s[0]] + Replace(s[1..], pat, rep)
  }

  /** `pat` occurs in `s` at position `i`. */
  ghost predicate OccursAt(s: string, pat: string, i: int)
  {
    0 <= i && i + |pat| <= |s| && s[i..i + |pat|] == pat
  }

  /** `Replace` leaves a text in which `pat` does not occur as it is. */
  lemma ReplaceKeepsAbsent(s: string, pat: string, rep: string)
    requires |pat| > 0
    ensures (forall i :: !OccursAt(s, pat, i)) ==> Replace(s, pat, rep) == s
  {
    if forall i :: !OccursAt(s, pat, i) {
      ReplaceAbsent(s, pat, rep);
    }
  }

  /** A text in which `pat` does not occur is left as it is. */
  lemma {:induction false} ReplaceAbsent(s: string, pat: string, rep: string)
    requires |pat| > 0
    requires forall i :: !OccursAt(s, pat, i)
    ensures Replace(s, pat, rep) == s
    decreases |s|
  {
    if |s| >= |pat| {
      assert !OccursAt(s, pat, 0);
      assert s[0..|pat|] == s[..|pat|];
      forall i ensures !OccursAt(s[1..], pat, i) {
        if OccursAt(s[1..], pat, i) {
          assert s[1..][i..i + |pat|] == s[i + 1..i + 1 + |pat|];
          assert OccursAt(s, pat, i + 1);
        }
      }
      ReplaceAbsent(s[1..], pat, rep);
      assert [s[0]] + s[1..] == s;
    }
  }
}
