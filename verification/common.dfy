/**
 * File-name clean-up from utils/common.py: `sanitize_filename` splits the
 * name with `os.path.splitext` (POSIX flavour: `/` separates directories),
 * replaces each character that Windows forbids in the part before the
 * extension by `_`, one character at a time, and keeps the extension as it
 * was. `clean_filename` is the same function under another name.
 */
module Common {
  import opened PyStr

  /** The characters Windows forbids in file names, in the order the source replaces them. */
  const InvalidChars: seq<char> := ['<', '>', ':', '"', '/', '\\', '|', '?', '*']

  /** The replacement character is not itself forbidden, so it is never replaced again. */
  lemma UnderscoreAllowed()
    ensures '_' !in InvalidChars
  {
    assert InvalidChars == ['<', '>', ':', '"', '/', '\\', '|', '?', '*'];
  }

  /** True when some character of `p[lo..hi]` is not a dot. */
  predicate HasNonDot(p: string, lo: int, hi: int)
    requires 0 <= lo && hi <= |p|
  {
    exists k :: lo <= k < hi && p[k] != '.'
  }

  /**
   * True when the last path component of `p` has a dot after some character
   * that is not a dot: exactly then `os.path.splitext` finds an extension.
   */
  predicate HasExtension(p: string) {
    exists d, j :: 0 <= j < d < |p| && p[d] == '.' && p[j] != '.' && forall i :: j <= i < |p| ==> p[i] != '/'
  }

  /**
   * Where `os.path.splitext` cuts `p`: at its last dot when that dot lies in
   * the last path component and is not part of the component's leading dots,
   * otherwise at the end (no extension).
   */
  function ExtStart(p: string): (k: nat)
    ensures k <= |p|
    ensures k < |p| ==> p[k] == '.'
    ensures forall i :: k < i < |p| ==> p[i] != '.' && p[i] != '/'
    ensures k < |p| <==> HasExtension(p)
  {
    var sep := RFind(p, '/', 0, |p|);
    var dot := RFind(p, '.', 0, |p|);
    ExtensionCut(p);
    if dot > sep && HasNonDot(p, sep + 1, dot) then dot else |p|
  }

  /** `splitext`'s test (a last dot after the last `/`, with a non-dot before it in that component) detects an extension. */
  lemma ExtensionCut(p: string)
    ensures var sep, dot := RFind(p, '/', 0, |p|), RFind(p, '.', 0, |p|);
      HasExtension(p) <==> dot > sep && HasNonDot(p, sep + 1, dot)
  {
    var sep, dot := RFind(p, '/', 0, |p|), RFind(p, '.', 0, |p|);
    if dot > sep && HasNonDot(p, sep + 1, dot) {
      var j :| sep + 1 <= j < dot && p[j] != '.';
      assert 0 <= j < dot < |p| && p[dot] == '.' && p[j] != '.' && forall i :: j <= i < |p| ==> p[i] != '/';
    }
    if HasExtension(p) {
      var d, j :| 0 <= j < d < |p| && p[d] == '.' && p[j] != '.' && forall i :: j <= i < |p| ==> p[i] != '/';
      assert sep < j && d <= dot;
      assert HasNonDot(p, sep + 1, dot);
    }
  }

  /** `os.path.splitext(p)`: the root and the extension, which together are `p`. */
  function SplitExt(p: string): (r: (string, string))
    ensures r.0 + r.1 == p
    ensures r.1 == [] || (r.1[0] == '.' && forall i :: 1 <= i < |r.1| ==> r.1[i] != '.' && r.1[i] != '/')
    ensures r.1 != [] <==> HasExtension(p)
  {
    var k := ExtStart(p);
    assert p[..k] + p[k..] == p;
    (p[..k], p[k..])
  }

  /** `s.replace(target, replacement)` for one-character arguments. */
  function ReplaceChar(s: string, target: char, replacement: char): (r: string)
    ensures |r| == |s|
    ensures forall i :: 0 <= i < |s| ==> r[i] == if s[i] == target then replacement else s[i]
  {
    seq(|s|, i requires 0 <= i < |s| => if s[i] == target then replacement else s[i])
  }

  /** The loop `for char in chars: base = base.replace(char, '_')`. */
  function ReplaceEach(base: string, chars: seq<char>): (r: string)
    decreases |chars|
    ensures |r| == |base|
  {
    if chars == [] then base else ReplaceEach(ReplaceChar(base, chars[0], '_'), chars[1..])
  }

  /** The per-character view: a forbidden character becomes `_`, any other stays. */
  function Cleaned(c: char): char {
    if c in InvalidChars then '_' else c
  }

  /** Cleaning never yields `/`, and yields a dot exactly for a dot. */
  lemma CleanedSeparators(c: char)
    ensures Cleaned(c) != '/'
    ensures Cleaned(c) == '.' <==> c == '.'
  {
    assert InvalidChars[4] == '/';
    if c == '.' {
      assert InvalidChars == ['<', '>', ':', '"', '/', '\\', '|', '?', '*'];
    }
  }

  /**
   * Replacing the characters one after another is the same as mapping each
   * character on its own, because the replacement `_` is never replaced again.
   */
  lemma {:induction false} ReplaceEachIsCharwise(base: string, chars: seq<char>)
    requires '_' !in chars
    decreases |chars|
    ensures |ReplaceEach(base, chars)| == |base|
    ensures forall i :: 0 <= i < |base| ==>
      ReplaceEach(base, chars)[i] == if base[i] in chars then '_' else base[i]
  {
    if chars != [] {
      var step := ReplaceChar(base, chars[0], '_');
      ReplaceEachIsCharwise(step, chars[1..]);
      forall i | 0 <= i < |base|
        ensures ReplaceEach(base, chars)[i] == if base[i] in chars then '_' else base[i]
      {
        assert base[i] in chars <==> base[i] == chars[0] || base[i] in chars[1..];
      }
    }
  }

  /** True when `s` holds none of the forbidden characters. */
  predicate NoInvalid(s: string) {
    forall i :: 0 <= i < |s| ==> s[i] !in InvalidChars
  }

  /** `sanitize_filename(filename)`: the root cleaned, the extension kept. */
  function SanitizeFilename(filename: string): (r: string)
    ensures |r| == |filename|
    ensures r[ExtStart(filename)..] == filename[ExtStart(filename)..]
  {
    var parts := SplitExt(filename);
    ReplaceEach(parts.0, InvalidChars) + parts.1
  }

  /**
   * Character by character: before the extension each forbidden character
   * has become `_` and every other is kept; the extension is untouched.
   */
  lemma SanitizeCharwise(filename: string)
    ensures forall i :: 0 <= i < |filename| ==>
      SanitizeFilename(filename)[i] == if i < ExtStart(filename) then Cleaned(filename[i]) else filename[i]
  {
    var parts := SplitExt(filename);
    var k := ExtStart(filename);
    var r := SanitizeFilename(filename);
    var cleaned := ReplaceEach(parts.0, InvalidChars);
    UnderscoreAllowed();
    ReplaceEachIsCharwise(parts.0, InvalidChars);
    forall i | 0 <= i < |filename|
      ensures r[i] == if i < k then Cleaned(filename[i]) else filename[i]
    {
      if i < k {
        assert r[i] == cleaned[i] && parts.0[i] == filename[i];
      } else {
        assert r[k..][i - k] == filename[k..][i - k];
      }
    }
  }

  /** `clean_filename(filename)`: delegates to `sanitize_filename`. */
  function CleanFilename(filename: string): (r: string)
    ensures r == SanitizeFilename(filename)
  {
    SanitizeFilename(filename)
  }

  /** The root of the result, everything before the extension, is free of forbidden characters. */
  lemma SanitizeCleansRoot(filename: string)
    ensures NoInvalid(SanitizeFilename(filename)[..ExtStart(filename)])
  {
    var root := SanitizeFilename(filename)[..ExtStart(filename)];
    SanitizeCharwise(filename);
    assert forall i :: 0 <= i < |root| ==> root[i] == SanitizeFilename(filename)[i];
  }

  /**
   * When the name has an extension, the result is cut at the same dot: dots
   * stay where they are and the cleaned root has no `/` left.
   */
  lemma SanitizeKeepsCut(filename: string)
    requires ExtStart(filename) < |filename|
    ensures ExtStart(SanitizeFilename(filename)) == ExtStart(filename)
  {
    var y := SanitizeFilename(filename);
    var k := ExtStart(filename);
    SanitizeCharwise(filename);
    var sep := RFind(filename, '/', 0, |filename|);
    var w :| sep + 1 <= w < k && filename[w] != '.';
    forall i | 0 <= i < |y| ensures y[i] != '/' && (y[i] == '.' <==> filename[i] == '.') {
      if i < k {
        CleanedSeparators(filename[i]);
      }
    }
    assert RFind(y, '/', 0, |y|) == -1;
    assert RFind(y, '.', 0, |y|) == k;
    assert y[w] != '.';
  }

  /**
   * Sanitizing twice gives the same name as sanitizing once: the result is
   * cut at the same dot (or has no extension and no forbidden character at
   * all), and its root is already clean.
   */
  lemma SanitizeIdempotent(filename: string)
    ensures SanitizeFilename(SanitizeFilename(filename)) == SanitizeFilename(filename)
  {
    var y := SanitizeFilename(filename);
    var k := ExtStart(filename);
    SanitizeCleansRoot(filename);
    if k < |filename| {
      SanitizeKeepsCut(filename);
    }
    var z := SanitizeFilename(y);
    SanitizeCharwise(y);
    forall i | 0 <= i < |y| ensures z[i] == y[i] {
    }
  }
}
