/**
 * The Python string built-ins the two site drivers rely on, written out:
 * `str.split(sep)`, `str.split()` (whitespace), `str.rjust`, `int(str)` and
 * `os.path.splitext` (POSIX rules).
 */
module Text {
  import opened Wrappers

  /** Python's `str.isspace` for one character: the separators `str.split()` uses. */
  predicate IsSpace(c: char) {
    var n := c as int;
    (9 <= n <= 13) || (28 <= n <= 32) || n == 0x85 || n == 0xA0 || n == 0x1680
    || (0x2000 <= n <= 0x200A) || n == 0x2028 || n == 0x2029 || n == 0x202F
    || n == 0x205F || n == 0x3000
  }

  // ---------------------------------------------------------------------------
  // str.split(sep) and its inverse, sep.join(parts)

  /** `s.split(sep)` for a one-character separator: every occurrence splits. */
  function Split(s: string, sep: char): (parts: seq<string>)
    ensures |parts| >= 1
    decreases |s|
  {
    if s == [] then [[]]
    else
      var rest := Split(s[1..], sep);
      if s[0] == sep then [[]] + rest
      else [[s[0]] + rest[0]] + rest[1..]
  }

  /** `sep.join(parts)`. */
  function Join(parts: seq<string>, sep: char): string
    decreases |parts|
  {
    if |parts| == 0 then []
    else if |parts| == 1 then parts[0]
    else parts[0] + [sep] + Join(parts[1..], sep)
  }

  /** Splitting loses nothing (joining gives the text back) and no piece holds the separator. */
  lemma {:induction false} SplitJoin(s: string, sep: char)
    ensures Join(Split(s, sep), sep) == s
    ensures forall k :: 0 <= k < |Split(s, sep)| ==> sep !in Split(s, sep)[k]
    decreases |s|
  {
    if s != [] {
      SplitJoin(s[1..], sep);
      var rest := Split(s[1..], sep);
      var parts := Split(s, sep);
      if s[0] == sep {
        assert parts == [[]] + rest;
        assert parts[1..] == rest;
      } else {
        assert parts == [[s[0]] + rest[0]] + rest[1..];
        assert parts[1..] == rest[1..];
        if |rest| > 1 {
          assert Join(rest, sep) == rest[0] + [sep] + Join(rest[1..], sep);
        }
        assert s == [s[0]] + s[1..];
      }
    }
  }

  // ---------------------------------------------------------------------------
  // Whitespace trimming and the last word of `str.split()`

  /** The text without its trailing whitespace. */
  function TrimEnd(s: string): (t: string)
    ensures |t| <= |s| && t == s[..|t|]
    ensures forall i :: |t| <= i < |s| ==> IsSpace(s[i])
    ensures t == [] || !IsSpace(t[|t| - 1])
    decreases |s|
  {
    if s != [] && IsSpace(s[|s| - 1]) then TrimEnd(s[..|s| - 1]) else s
  }

  /**
   * The whitespace `int()` strips around a number: that of `str.isspace`
   * except the four ASCII information separators U+001C..U+001F.
   */
  predicate IntSpace(c: char) {
    IsSpace(c) && !(28 <= c as int <= 31)
  }

  /** The text without the trailing whitespace `int()` strips. */
  function IntTrimEnd(s: string): (t: string)
    ensures |t| <= |s| && t == s[..|t|]
    ensures forall i :: |t| <= i < |s| ==> IntSpace(s[i])
    ensures t == [] || !IntSpace(t[|t| - 1])
    decreases |s|
  {
    if s != [] && IntSpace(s[|s| - 1]) then IntTrimEnd(s[..|s| - 1]) else s
  }

  /** The text without the leading whitespace `int()` strips. */
  function IntTrimStart(s: string): (t: string)
    ensures |t| <= |s| && t == s[|s| - |t|..]
    ensures forall i :: 0 <= i < |s| - |t| ==> IntSpace(s[i])
    ensures t == [] || !IntSpace(t[0])
    decreases |s|
  {
    if s != [] && IntSpace(s[0]) then IntTrimStart(s[1..]) else s
  }

  /** The text `int()` parses: `s` with its surrounding `IntSpace` removed. */
  function IntStrip(s: string): string {
    IntTrimStart(IntTrimEnd(s))
  }

  /** Where the longest suffix free of whitespace starts. */
  function WordStart(s: string): (k: nat)
    ensures k <= |s|
    ensures forall i :: k <= i < |s| ==> !IsSpace(s[i])
    ensures k == 0 || IsSpace(s[k - 1])
    decreases |s|
  {
    if s != [] && !IsSpace(s[|s| - 1]) then WordStart(s[..|s| - 1]) else |s|
  }

  /** The longest suffix free of whitespace. */
  function TrailingWord(s: string): (w: string)
    ensures |w| <= |s| && w == s[|s| - |w|..]
    ensures forall i :: 0 <= i < |w| ==> !IsSpace(w[i])
    ensures |w| == |s| || IsSpace(s[|s| - |w| - 1])
  {
    s[WordStart(s)..]
  }

  /** `w` stands at index `k` of `s` as a whole word with only whitespace after it. */
  predicate LastWordAt(s: string, w: string, k: int) {
    0 <= k <= |s| - |w| && s[k..k + |w|] == w
    && (k == 0 || IsSpace(s[k - 1]))
    && (forall i :: k + |w| <= i < |s| ==> IsSpace(s[i]))
  }

  /**
   * `s.split()[-1]`: the last whitespace-separated word, or None where
   * Python raises IndexError because the text holds no word at all.
   */
  function LastWord(s: string): Option<string> {
    var t := TrimEnd(s);
    if t == [] then None else Some(TrailingWord(t))
  }

  /**
   * There is no last word exactly when the text is all whitespace; otherwise
   * it is a nonempty run free of whitespace that stands in `s` as a whole
   * word, with only whitespace after it.
   */
  lemma LastWordSpec(s: string)
    ensures LastWord(s).None? <==> forall i :: 0 <= i < |s| ==> IsSpace(s[i])
    ensures LastWord(s).Some? ==> LastWord(s).value != [] && forall i :: 0 <= i < |LastWord(s).value| ==> !IsSpace(LastWord(s).value[i])
    ensures LastWord(s).Some? ==> exists k :: LastWordAt(s, LastWord(s).value, k)
  {
    var t := TrimEnd(s);
    if t != [] {
      var word := TrailingWord(t);
      assert word != [] by { assert !IsSpace(t[|t| - 1]); }
      var k := |t| - |word|;
      assert s[k..k + |word|] == word;
      assert LastWordAt(s, word, k);
    }
  }

  // ---------------------------------------------------------------------------
  // str.rjust

  function Repeat(c: char, n: nat): (r: string)
    ensures |r| == n && forall i :: 0 <= i < n ==> r[i] == c
  {
    seq(n, _ => c)
  }

  /** `s.rjust(width, fill)`. */
  function RJust(s: string, width: nat, fill: char): (r: string)
    ensures |r| == if |s| >= width then |s| else width
    ensures r[|r| - |s|..] == s
    ensures forall i :: 0 <= i < |r| - |s| ==> r[i] == fill
  {
    if |s| >= width then s else Repeat(fill, width - |s|) + s
  }

  // ---------------------------------------------------------------------------
  // int(str) and decimal rendering

  predicate IsDigit(c: char) {
    '0' <= c <= '9'
  }

  predicate AllDigits(s: string) {
    forall i :: 0 <= i < |s| ==> IsDigit(s[i])
  }

  /** The value of a run of ASCII digits, leading zeros allowed. */
  function DigitsValue(s: string): nat
    requires AllDigits(s)
    decreases |s|
  {
    if s == [] then 0 else 10 * DigitsValue(s[..|s| - 1]) + (s[|s| - 1] as int - '0' as int)
  }

  /**
   * `int(s)` on a string: surrounding whitespace (`IntSpace`), an optional
   * sign and one or more ASCII digits; None stands for the ValueError Python
   * raises.
   */
  function ParseInt(s: string): (r: Option<int>)
  {
    var t := IntStrip(s);
    if t != [] && (t[0] == '+' || t[0] == '-') then
      var d := t[1..];
      if d != [] && AllDigits(d) then
        Some(if t[0] == '-' then -(DigitsValue(d) as int) else DigitsValue(d))
      else None
    else if t != [] && AllDigits(t) then Some(DigitsValue(t))
    else None
  }

  lemma StripUnpadded(s: string)
    requires s != [] && !IntSpace(s[0]) && !IntSpace(s[|s| - 1])
    ensures IntStrip(s) == s
  {
    assert IntTrimEnd(s) == s;
  }

  /** A plain run of digits reads as its value. */
  lemma ParseDigits(s: string)
    requires s != [] && AllDigits(s)
    ensures ParseInt(s) == Some(DigitsValue(s) as int)
  {
    assert IsDigit(s[0]) && IsDigit(s[|s| - 1]);
    StripUnpadded(s);
  }

  /** A minus sign before a plain run of digits negates its value. */
  lemma ParseNegated(d: string)
    requires d != [] && AllDigits(d)
    ensures ParseInt(['-'] + d) == Some(-(DigitsValue(d) as int))
  {
    var m := ['-'] + d;
    assert IsDigit(d[|d| - 1]) && m[|m| - 1] == d[|d| - 1];
    StripUnpadded(m);
    assert m[1..] == d;
  }

  /**
   * An information separator (U+001C..U+001F) before or after a run of
   * digits is not stripped: `int()` rejects the text, although `str.split()`
   * treats those characters as whitespace.
   */
  lemma SeparatorsNotStripped(c: char, d: string)
    requires 28 <= c as int <= 31
    requires d != [] && AllDigits(d)
    ensures IsSpace(c) && ParseInt([c] + d) == None && ParseInt(d + [c]) == None
  {
    var before, after := [c] + d, d + [c];
    assert IsDigit(d[|d| - 1]) && before[|before| - 1] == d[|d| - 1];
    StripUnpadded(before);
    assert IsDigit(d[0]) && after[0] == d[0];
    StripUnpadded(after);
    assert !AllDigits(before) by { assert !IsDigit(before[0]); }
    assert !AllDigits(after) by { assert !IsDigit(after[|after| - 1]); }
  }

  /** Leading zeros do not change the value of a digit run. */
  lemma {:induction false} LeadingZeros(z: nat, d: string)
    requires AllDigits(d)
    ensures AllDigits(Repeat('0', z) + d)
    ensures DigitsValue(Repeat('0', z) + d) == DigitsValue(d)
    decreases |d|, z
  {
    var s := Repeat('0', z) + d;
    if d == [] {
      if z > 0 {
        assert s == Repeat('0', z);
        assert s[..|s| - 1] == Repeat('0', z - 1) + [];
        LeadingZeros(z - 1, []);
      }
    } else {
      LeadingZeros(z, d[..|d| - 1]);
      assert s[..|s| - 1] == Repeat('0', z) + d[..|d| - 1];
    }
  }

  // ---------------------------------------------------------------------------
  // os.path.splitext (posixpath)

  /** `s.rfind(c)`: the last index holding c, or -1. */
  function RFind(s: string, c: char): (i: int)
    ensures -1 <= i < |s|
    ensures i >= 0 ==> s[i] == c
    ensures forall k :: i < k < |s| ==> s[k] != c
    decreases |s|
  {
    if s == [] then -1 else if s[|s| - 1] == c then |s| - 1 else RFind(s[..|s| - 1], c)
  }

  lemma {:induction false} RFindPrefix(s: string, c: char, n: nat)
    requires n <= |s|
    requires forall k :: n <= k < |s| ==> s[k] != c
    ensures RFind(s, c) == RFind(s[..n], c)
    decreases |s|
  {
    if n < |s| {
      RFindPrefix(s[..|s| - 1], c, n);
      assert s[..|s| - 1][..n] == s[..n];
    } else {
      assert s[..n] == s;
    }
  }

  /**
   * True when the final path component of `root` has a character other than
   * '.', which is what makes a following '.' start an extension.
   */
  predicate HasStem(root: string) {
    exists k :: RFind(root, '/') < k < |root| && root[k] != '.'
  }

  /**
   * `os.path.splitext(p)`: the extension runs from the last '.' of the final
   * path component, unless that component has only dots before it.
   */
  function SplitExt(p: string): (r: (string, string))
    ensures r.0 + r.1 == p
    ensures r.1 == [] || (r.1[0] == '.' && forall k :: 1 <= k < |r.1| ==> r.1[k] != '.' && r.1[k] != '/')
    ensures r.1 != [] ==> HasStem(r.0)
  {
    var sepIndex := RFind(p, '/');
    var dotIndex := RFind(p, '.');
    if dotIndex > sepIndex && exists k :: sepIndex < k < dotIndex && p[k] != '.' then
      var root := p[..dotIndex];
      RFindPrefix(p, '/', dotIndex);
      assert RFind(root, '/') == sepIndex;
      assert p[..dotIndex] + p[dotIndex..] == p;
      (root, p[dotIndex..])
    else (p, [])
  }

  /**
   * The final path component of `p` has a '.' after some character other
   * than '.': position k is such a character, i a later '.', and no '/'
   * comes at or after k.
   */
  predicate DotAfterStem(p: string) {
    exists k, i :: 0 <= k < i < |p| && p[k] != '.' && p[i] == '.' && forall j :: k <= j < |p| ==> p[j] != '/'
  }

  /** `splitext` splits off an extension exactly when the final component has a '.' after a stem. */
  lemma SplitExtFinds(p: string)
    ensures SplitExt(p).1 != [] <==> DotAfterStem(p)
  {
    var sepIndex := RFind(p, '/');
    var dotIndex := RFind(p, '.');
    if SplitExt(p).1 != [] {
      var k :| sepIndex < k < dotIndex && p[k] != '.';
      assert 0 <= k < dotIndex < |p| && p[k] != '.' && p[dotIndex] == '.';
    }
    if DotAfterStem(p) {
      var k, i :| 0 <= k < i < |p| && p[k] != '.' && p[i] == '.' && forall j :: k <= j < |p| ==> p[j] != '/';
      assert sepIndex < 0 || p[sepIndex] == '/';
      assert i <= dotIndex;
      assert sepIndex < k < dotIndex && p[k] != '.';
    }
  }
}
