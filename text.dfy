/**
 * The few Python string operations the analysis scripts rely on, written out
 * over `seq<char>`: `str.split(sep)[0]` for the two-character separator "@[",
 * `str.strip()`, `os.path.basename`, `str.lower()`, `str.endswith` and
 * `os.path.splitext` (POSIX flavour).
 */
module Text {

  /** The characters for which Python's `str.isspace()` holds (the Unicode whitespace set of CPython). */
  const Whitespace: set<char> := {' ', '\t', '\n', '\U{B}', '\U{C}', '\r', '\U{1C}', '\U{1D}', '\U{1E}', '\U{1F}', '\U{85}', '\U{A0}', '\U{1680}',
    '\U{2000}', '\U{2001}', '\U{2002}', '\U{2003}', '\U{2004}', '\U{2005}', '\U{2006}', '\U{2007}', '\U{2008}', '\U{2009}', '\U{200A}',
    '\U{2028}', '\U{2029}', '\U{202F}', '\U{205F}', '\U{3000}'}

  /** Python's `str.isspace()` for one character. */
  predicate IsSpace(c: char)
  {
    c in Whitespace
  }

  // ---------------------------------------------------------------------------
  // split('@[')[0]

  /** The separator "@[" starts at index `i` of `s`. */
  predicate MarkerAt(s: string, i: int)
  {
    0 <= i && i + 1 < |s| && s[i] == '@' && s[i + 1] == '['
  }

  /** `s.split('@[')[0]`: the text before the first "@[", or all of `s` when there is none. */
  function BeforeMarker(s: string): string
  {
    if |s| < 2 then s
    else if s[0] == '@' && s[1] == '[' then ""
    else [s[0]] + BeforeMarker(s[1..])
  }

  /** The text before the marker is a prefix of `s` without "@[" that is all of `s` or ends where the first "@[" starts. */
  lemma {:induction false} BeforeMarkerIsPrefix(s: string)
    ensures var r := BeforeMarker(s);
      && |r| <= |s| && r == s[..|r|]
      && (forall i | 0 <= i < |r| :: !MarkerAt(s, i))
      && (r == s || MarkerAt(s, |r|))
  {
    if |s| >= 2 && !(s[0] == '@' && s[1] == '[') {
      BeforeMarkerIsPrefix(s[1..]);
      assert forall i | 1 <= i < |s| :: MarkerAt(s, i) == MarkerAt(s[1..], i - 1);
    }
  }

  /** Text without "@[" is kept whole, whatever follows the first "@[" after it. */
  lemma BeforeMarkerOfUnmarked(s: string, rest: string)
    requires forall i | 0 <= i < |s| :: !MarkerAt(s, i)
    ensures BeforeMarker(s + "@[" + rest) == s
  {
    var t := s + "@[" + rest;
    assert forall i | 0 <= i < |s| :: t[i] == s[i];
    assert t[|s|] == '@' && t[|s| + 1] == '[';
    assert forall i | 0 <= i < |s| - 1 :: MarkerAt(t, i) == MarkerAt(s, i);
    assert |s| == 0 || !MarkerAt(t, |s| - 1);
    assert forall i | 0 <= i < |s| :: !MarkerAt(t, i);
    var r := BeforeMarker(t);
    BeforeMarkerIsPrefix(t);
    assert MarkerAt(t, |s|);
    assert |r| <= |s| < |t|;
    assert MarkerAt(t, |r|);
    assert t[..|s|] == s;
  }

  // ---------------------------------------------------------------------------
  // strip()

  /** `s.lstrip()`: `s` without its leading whitespace. */
  function StripStart(s: string): string
  {
    if s != [] && IsSpace(s[0]) then StripStart(s[1..]) else s
  }

  /** `s.lstrip()` is the suffix of `s` after its leading whitespace, and it does not start with whitespace. */
  lemma {:induction false} StripStartIsSuffix(s: string)
    ensures var r := StripStart(s);
      && |r| <= |s| && r == s[|s| - |r|..]
      && (forall i | 0 <= i < |s| - |r| :: IsSpace(s[i]))
      && (r == [] || !IsSpace(r[0]))
  {
    if s != [] && IsSpace(s[0]) {
      StripStartIsSuffix(s[1..]);
      assert forall i | 1 <= i < |s| :: s[i] == s[1..][i - 1];
    }
  }

  /** `s.rstrip()`: `s` without its trailing whitespace. */
  function StripEnd(s: string): string
  {
    if s != [] && IsSpace(s[|s| - 1]) then StripEnd(s[..|s| - 1]) else s
  }

  /** `s.rstrip()` is the prefix of `s` before its trailing whitespace, and it does not end with whitespace. */
  lemma {:induction false} StripEndIsPrefix(s: string)
    ensures var r := StripEnd(s);
      && |r| <= |s| && r == s[..|r|]
      && (forall i | |r| <= i < |s| :: IsSpace(s[i]))
      && (r == [] || !IsSpace(r[|r| - 1]))
  {
    if s != [] && IsSpace(s[|s| - 1]) {
      StripEndIsPrefix(s[..|s| - 1]);
      assert forall i | 0 <= i < |s| - 1 :: s[i] == s[..|s| - 1][i];
    }
  }

  /** `s.strip()`. */
  function Strip(s: string): string
  {
    StripEnd(StripStart(s))
  }

  /** The stripped text is a contiguous piece of `s`, surrounded by whitespace only and neither starting nor ending with whitespace. */
  lemma StripIsTrimmedSlice(s: string) returns (a: nat, b: nat)
    ensures a <= b <= |s| && Strip(s) == s[a..b]
    ensures forall i | 0 <= i < a :: IsSpace(s[i])
    ensures forall i | b <= i < |s| :: IsSpace(s[i])
    ensures a < b ==> !IsSpace(s[a]) && !IsSpace(s[b - 1])
  {
    var t := StripStart(s);
    var r := StripEnd(t);
    StripStartIsSuffix(s);
    StripEndIsPrefix(t);
    a := |s| - |t|;
    b := a + |r|;
    assert t == s[a..];
    assert r == s[a..b];
    assert forall i | b <= i < |s| :: IsSpace(t[i - a]) && s[i] == t[i - a];
  }

  /** Text without whitespace is its own `strip()`. */
  lemma StripWithoutSpace(s: string)
    requires forall i | 0 <= i < |s| :: !IsSpace(s[i])
    ensures Strip(s) == s
  {
    assert s == [] || !IsSpace(s[0]);
    assert StripStart(s) == s;
    assert s == [] || !IsSpace(s[|s| - 1]);
  }

  // ---------------------------------------------------------------------------
  // os.path.basename

  /** POSIX `os.path.basename(s)`: the text after the last '/'. */
  function Basename(s: string): string
  {
    if s == [] then []
    else if s[|s| - 1] == '/' then []
    else Basename(s[..|s| - 1]) + [s[|s| - 1]]
  }

  /** The base name is the suffix of `s` after its last '/', or all of `s` when it has none. */
  lemma {:induction false} BasenameIsLastSegment(s: string)
    ensures var r := Basename(s);
      && |r| <= |s| && r == s[|s| - |r|..]
      && '/' !in r
      && (|r| == |s| || s[|s| - |r| - 1] == '/')
  {
    if s != [] && s[|s| - 1] != '/' {
      var front := s[..|s| - 1];
      BasenameIsLastSegment(front);
      var r := Basename(front);
      assert r == s[|s| - 1 - |r|..|s| - 1];
      assert forall i | 0 <= i < |r| :: (r + [s[|s| - 1]])[i] == r[i];
    }
  }

  /** The base name of `dir/name` is `name` when `name` has no '/'. */
  lemma {:induction false} BasenameAfterSlash(dir: string, name: string)
    requires '/' !in name
    ensures Basename(dir + "/" + name) == name
  {
    var s := dir + "/" + name;
    if name != [] {
      var front := name[..|name| - 1];
      assert s[..|s| - 1] == dir + "/" + front;
      assert s[|s| - 1] == name[|name| - 1];
      BasenameAfterSlash(dir, front);
      assert name == front + [name[|name| - 1]];
    }
  }

  // ---------------------------------------------------------------------------
  // str.endswith

  /** `s.endswith(suffix)`. */
  predicate EndsWith(s: string, suffix: string)
  {
    |suffix| <= |s| && s[|s| - |suffix|..] == suffix
  }

  // ---------------------------------------------------------------------------
  // str.lower (ASCII letters only)

  /** `c.lower()` for one character: an upper-case ASCII letter becomes its own lower-case letter. */
  function LowerChar(c: char): (d: char)
    ensures 'A' <= c <= 'Z' ==> 'a' <= d <= 'z' && d as int == c as int + 32
    ensures !('A' <= c <= 'Z') ==> d == c
  {
    if 'A' <= c <= 'Z' then (c as int - 'A' as int + 'a' as int) as char else c
  }

  /** `s.lower()` for ASCII text: upper-case letters become lower-case, nothing else changes. */
  function Lower(s: string): (r: string)
    ensures |r| == |s|
    ensures forall i | 0 <= i < |s| :: r[i] == LowerChar(s[i])
  {
    if s == [] then [] else [LowerChar(s[0])] + Lower(s[1..])
  }

  /** Lower-casing twice is lower-casing once. */
  lemma LowerIdempotent(s: string)
    ensures Lower(Lower(s)) == Lower(s)
  {
  }

  // ---------------------------------------------------------------------------
  // os.path.splitext(p)[-1]

  /** Index of the last occurrence of `c` before index `hi`, or -1. */
  function LastIndexOf(s: string, c: char, hi: nat): (k: int)
    requires hi <= |s|
    ensures -1 <= k < hi
    ensures k >= 0 ==> s[k] == c
    ensures forall i | k < i < hi :: s[i] != c
  {
    if hi == 0 then -1
    else if s[hi - 1] == c then hi - 1
    else LastIndexOf(s, c, hi - 1)
  }

  /** Some character of `s[lo..hi]` is not a '.'. */
  predicate HasNonDot(s: string, lo: nat, hi: nat)
    requires lo <= hi <= |s|
  {
    exists i | lo <= i < hi :: s[i] != '.'
  }

  /**
   * The extension `os.path.splitext(p)` returns on POSIX: from the last '.'
   * to the end, provided that dot comes after the last '/' and is not part of
   * the leading dots of the file name; otherwise the empty string.
   */
  function SplitExt(p: string): (ext: string)
    ensures ext == [] || (ext[0] == '.' && |ext| <= |p| && ext == p[|p| - |ext|..] && '/' !in ext)
    ensures ext != [] ==> '.' !in ext[1..]
  {
    var sep := LastIndexOf(p, '/', |p|);
    var dot := LastIndexOf(p, '.', |p|);
    if dot > sep && HasNonDot(p, sep + 1, dot) then p[dot..] else []
  }

  /**
   * A non-empty extension starts at the last dot of `p`, and the file name
   * (the part after the last '/') has a character other than '.' before it.
   */
  lemma SplitExtHasStem(p: string)
    ensures var ext := SplitExt(p);
      ext != [] ==> exists j | 0 <= j < |p| - |ext| :: p[j] != '.' && forall m | j <= m < |p| :: p[m] != '/'
  {
    var sep := LastIndexOf(p, '/', |p|);
    var dot := LastIndexOf(p, '.', |p|);
    if dot > sep && HasNonDot(p, sep + 1, dot) {
      var j :| sep + 1 <= j < dot && p[j] != '.';
      assert |p| - |SplitExt(p)| == dot;
      assert forall m | j <= m < |p| :: p[m] != '/';
    }
  }

  /**
   * Conversely, when the file name has a character other than '.' before its
   * last dot `k`, the extension is everything from `k` on.
   */
  lemma SplitExtIsLastDot(p: string, j: nat, k: nat)
    requires j < k < |p| && p[k] == '.' && p[j] != '.'
    requires forall m | k < m < |p| :: p[m] != '.'
    requires forall m | j <= m < |p| :: p[m] != '/'
    ensures SplitExt(p) == p[k..]
  {
    var sep := LastIndexOf(p, '/', |p|);
    var dot := LastIndexOf(p, '.', |p|);
    assert dot == k;
    assert sep < j;
    assert HasNonDot(p, sep + 1, dot);
  }

  /** `os.path.splitext(p)[-1][1:]`: the extension without its dot. */
  function ExtensionOf(p: string): string
  {
    var ext := SplitExt(p);
    if ext == [] then [] else ext[1..]
  }

  /** A file name whose only dot is at the front (".bashrc") has no extension. */
  lemma HiddenFileHasNoExtension(name: string)
    requires |name| >= 1 && name[0] == '.'
    requires forall i | 1 <= i < |name| :: name[i] != '.' && name[i] != '/'
    ensures ExtensionOf(name) == []
  {
    assert LastIndexOf(name, '.', |name|) == 0;
  }

  /** A name "stem.ext" with a non-empty stem and no other dot or slash has extension "ext". */
  lemma ExtensionOfSimpleName(stem: string, ext: string)
    requires stem != [] && '.' !in stem && '/' !in stem
    requires '.' !in ext && '/' !in ext
    ensures ExtensionOf(stem + "." + ext) == ext
  {
    var p := stem + "." + ext;
    assert p[|stem|] == '.';
    assert LastIndexOf(p, '.', |p|) == |stem|;
    assert LastIndexOf(p, '/', |p|) == -1;
    assert p[0] == stem[0] && p[0] != '.';
    assert p[|stem|..] == "." + ext;
  }
}
