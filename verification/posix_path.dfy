/**
 POSIX path helpers with the semantics of Python's `posixpath` module:
 `str.rfind`, `os.path.basename` and `os.path.splitext`.

 `SplitExt` follows the algorithm of the standard library (find the last
 separator and the last dot; the dot starts an extension only when some
 character of the final component before it is not a dot). `Scan` is an
 independent, left-to-right definition of the same extension, and
 `ScanAgreesWithSplitExt` proves the two equal on every path.
 */
module PosixPath {

  /** Index of the last `c` among the first `n` characters of `s`, or -1 when there is none. */
  function LastBefore(s: string, c: char, n: nat): (r: int)
    requires n <= |s|
    ensures -1 <= r < n
    ensures 0 <= r ==> s[r] == c
    decreases n
  {
    if n == 0 then -1
    else if s[n - 1] == c then n - 1
    else LastBefore(s, c, n - 1)
  }

  /** Index of the last `c` in `s`, or -1 when there is none (`str.rfind`). */
  function RFind(s: string, c: char): (r: int)
    ensures -1 <= r < |s|
    ensures 0 <= r ==> s[r] == c
  {
    LastBefore(s, c, |s|)
  }

  lemma {:induction false} LastBeforeIsLast(s: string, c: char, n: nat)
    requires n <= |s|
    ensures forall j :: LastBefore(s, c, n) < j < n ==> s[j] != c
    decreases n
  {
    if n > 0 && s[n - 1] != c {
      LastBeforeIsLast(s, c, n - 1);
    }
  }

  /** No `c` follows the index `RFind` returns, so -1 means `c` does not occur. */
  lemma RFindIsLast(s: string, c: char)
    ensures forall j :: RFind(s, c) < j < |s| ==> s[j] != c
  {
    LastBeforeIsLast(s, c, |s|);
  }

  /** `LastBefore` reads only the first `n` characters. */
  lemma {:induction false} LastBeforeAgree(s: string, t: string, c: char, n: nat)
    requires n <= |s| && n <= |t|
    requires forall i :: 0 <= i < n ==> s[i] == t[i]
    ensures LastBefore(s, c, n) == LastBefore(t, c, n)
    decreases n
  {
    if n > 0 {
      LastBeforeAgree(s, t, c, n - 1);
    }
  }

  /** Positions without `c` between `m` and `n` do not move the last `c`. */
  lemma {:induction false} LastBeforeSkip(s: string, c: char, m: nat, n: nat)
    requires m <= n <= |s|
    requires forall j :: m <= j < n ==> s[j] != c
    ensures LastBefore(s, c, n) == LastBefore(s, c, m)
    decreases n - m
  {
    if n > m {
      LastBeforeSkip(s, c, m, n - 1);
    }
  }

  /** `RFind` after appending one character. */
  lemma RFindSnoc(q: string, x: char, c: char)
    ensures RFind(q + [x], c) == if x == c then |q| else RFind(q, c)
  {
    if x != c {
      LastBeforeAgree(q + [x], q, c, |q|);
    }
  }

  /** Appending characters other than `c` does not move the last `c`. */
  lemma RFindAppend(s: string, t: string, c: char)
    requires c !in t
    ensures RFind(s + t, c) == RFind(s, c)
  {
    var p := s + t;
    forall j | |s| <= j < |p|
      ensures p[j] != c
    {
      assert p[j] == t[j - |s|];
    }
    LastBeforeSkip(p, c, |s|, |p|);
    LastBeforeAgree(p, s, c, |s|);
  }

  /** Cutting off a tail without `c` does not move the last `c`. */
  lemma RFindPrefix(p: string, n: nat, c: char)
    requires n <= |p|
    requires forall j :: n <= j < |p| ==> p[j] != c
    ensures RFind(p[..n], c) == RFind(p, c)
  {
    LastBeforeSkip(p, c, n, |p|);
    LastBeforeAgree(p, p[..n], c, n);
  }

  /** Some character of `p` at an index in `[lo, hi)` is not a dot. */
  predicate NonDotIn(p: string, lo: nat, hi: nat)
    requires lo <= hi <= |p|
  {
    exists i :: lo <= i < hi && p[i] != '.'
  }

  /** `NonDotIn` reads only the characters in its range. */
  lemma NonDotInAgree(s: string, t: string, lo: nat, hi: nat)
    requires lo <= hi <= |s| && hi <= |t|
    requires forall i :: lo <= i < hi ==> s[i] == t[i]
    ensures NonDotIn(s, lo, hi) <==> NonDotIn(t, lo, hi)
  {
    if NonDotIn(s, lo, hi) {
      var i :| lo <= i < hi && s[i] != '.';
      assert t[i] != '.';
    }
    if NonDotIn(t, lo, hi) {
      var i :| lo <= i < hi && t[i] != '.';
      assert s[i] != '.';
    }
  }

  /** The final path component: everything after the last `/` (`os.path.basename`). */
  function Basename(p: string): string {
    p[RFind(p, '/') + 1..]
  }

  /** The final path component of `p` is not made only of dots (and so is not empty). */
  predicate ProperStem(p: string) {
    NonDotIn(p, RFind(p, '/') + 1, |p|)
  }

  /** Where the extension begins: the last dot, or `|p|` when there is no extension. */
  function ExtStart(p: string): (k: nat)
    ensures k <= |p|
  {
    var sep := RFind(p, '/');
    var dot := RFind(p, '.');
    if dot > sep && NonDotIn(p, sep + 1, dot) then dot else |p|
  }

  /**
   `os.path.splitext`: the pair (root, ext). The extension starts at the
   last dot of the path, provided that dot lies in the final component and
   some character of that component before it is not a dot; otherwise the
   extension is empty.
   */
  function SplitExt(p: string): (r: (string, string))
    ensures r.0 + r.1 == p
  {
    var k := ExtStart(p);
    assert p[..k] + p[k..] == p;
    (p[..k], p[k..])
  }

  /** The extension alone, `os.path.splitext(p)[1]`. */
  function Ext(p: string): string {
    SplitExt(p).1
  }

  /** The extension is empty, or it starts at the last dot and holds no further dot or separator. */
  lemma ExtShape(p: string)
    ensures Ext(p) == [] || Ext(p)[0] == '.'
    ensures forall k :: 0 < k < |Ext(p)| ==> Ext(p)[k] != '.' && Ext(p)[k] != '/'
    ensures Ext(p) != [] ==> |SplitExt(p).0| == RFind(p, '.')
  {
    var sep := RFind(p, '/');
    var dot := RFind(p, '.');
    var ext := p[ExtStart(p)..];
    assert Ext(p) == ext;
    if ext != [] {
      assert ExtStart(p) == dot && sep < dot;
      RFindIsLast(p, '/');
      RFindIsLast(p, '.');
      forall i | 0 < i < |ext|
        ensures ext[i] != '.' && ext[i] != '/'
      {
        assert ext[i] == p[dot + i];
      }
    }
  }

  /** The root left by a non-empty extension still has a final component that is not all dots. */
  lemma ExtRootProper(p: string)
    requires Ext(p) != []
    ensures ProperStem(SplitExt(p).0)
  {
    var sep := RFind(p, '/');
    var dot := RFind(p, '.');
    assert ExtStart(p) == dot && sep < dot && NonDotIn(p, sep + 1, dot);
    var root := p[..dot];
    assert SplitExt(p).0 == root;
    RFindIsLast(p, '/');
    RFindPrefix(p, dot, '/');
    NonDotInAgree(p, root, sep + 1, dot);
  }

  /** Two strings with dots and separators at the same positions. */
  predicate SameSeparators(x: string, y: string) {
    && |x| == |y|
    && (forall i :: 0 <= i < |x| ==> (x[i] == '.' <==> y[i] == '.'))
    && (forall i :: 0 <= i < |x| ==> (x[i] == '/' <==> y[i] == '/'))
  }

  lemma {:induction false} LastBeforeSameSeparators(x: string, y: string, c: char, n: nat)
    requires SameSeparators(x, y) && (c == '.' || c == '/') && n <= |x|
    ensures LastBefore(x, c, n) == LastBefore(y, c, n)
    decreases n
  {
    if n > 0 {
      LastBeforeSameSeparators(x, y, c, n - 1);
    }
  }

  lemma RFindSameSeparators(x: string, y: string, c: char)
    requires SameSeparators(x, y) && (c == '.' || c == '/')
    ensures RFind(x, c) == RFind(y, c)
  {
    LastBeforeSameSeparators(x, y, c, |x|);
  }

  /** Where the extension starts depends only on where the dots and separators are. */
  lemma ExtStartSameSeparators(x: string, y: string)
    requires SameSeparators(x, y)
    ensures ExtStart(x) == ExtStart(y)
  {
    var sep := RFind(x, '/');
    var dot := RFind(x, '.');
    RFindSameSeparators(x, y, '/');
    RFindSameSeparators(x, y, '.');
    if dot > sep {
      if NonDotIn(x, sep + 1, dot) {
        var w :| sep + 1 <= w < dot && x[w] != '.';
        assert y[w] != '.';
      }
      if NonDotIn(y, sep + 1, dot) {
        var w :| sep + 1 <= w < dot && y[w] != '.';
        assert x[w] != '.';
      }
    }
  }

  /** The final component holds a dot that comes after some character that is not a dot. */
  predicate DotAfterNonDot(p: string) {
    exists i, j :: RFind(p, '/') < i < j < |p| && p[i] != '.' && p[j] == '.'
  }

  lemma ExtNonEmptyWitness(p: string)
    requires Ext(p) != []
    ensures DotAfterNonDot(p)
  {
    var sep := RFind(p, '/');
    var dot := RFind(p, '.');
    assert dot > sep && NonDotIn(p, sep + 1, dot);
    var w :| sep + 1 <= w < dot && p[w] != '.';
    assert p[w] != '.' && p[dot] == '.';
  }

  lemma ExtEmptyNoWitness(p: string)
    requires Ext(p) == []
    ensures !DotAfterNonDot(p)
  {
    var sep := RFind(p, '/');
    var dot := RFind(p, '.');
    assert ExtStart(p) == |p|;
    RFindIsLast(p, '.');
    forall i, j | sep < i < j < |p| && p[j] == '.'
      ensures p[i] == '.'
    {
      assert j <= dot;
      assert !NonDotIn(p, sep + 1, dot);
    }
  }

  /**
   The extension is non-empty exactly when the final component holds a
   dot that comes after some character that is not a dot.
   */
  lemma ExtNonEmptyIff(p: string)
    ensures Ext(p) != [] <==> DotAfterNonDot(p)
  {
    if Ext(p) != [] {
      ExtNonEmptyWitness(p);
    } else {
      ExtEmptyNoWitness(p);
    }
  }

  /** A dot-led suffix without further dots or separators keeps the root's last separator and adds the last dot. */
  lemma AppendExtRFinds(root: string, ext: string)
    requires |ext| > 0 && ext[0] == '.'
    requires forall k :: 0 < k < |ext| ==> ext[k] != '.' && ext[k] != '/'
    ensures RFind(root + ext, '/') == RFind(root, '/')
    ensures RFind(root + ext, '.') == |root|
  {
    var p := root + ext;
    assert '/' !in ext by {
      forall k | 0 <= k < |ext|
        ensures ext[k] != '/'
      {
      }
    }
    RFindAppend(root, ext, '/');
    forall j | |root| < j < |p|
      ensures p[j] != '.'
    {
      assert p[j] == ext[j - |root|];
    }
    LastBeforeSkip(p, '.', |root| + 1, |p|);
  }

  /**
   Appending a suffix that starts with one dot and holds no further dot
   or separator to a root whose final component is not all dots makes that
   suffix the extension.
   */
  lemma ExtOfAppend(root: string, ext: string)
    requires ProperStem(root)
    requires |ext| > 0 && ext[0] == '.'
    requires forall k :: 0 < k < |ext| ==> ext[k] != '.' && ext[k] != '/'
    ensures SplitExt(root + ext) == (root, ext)
  {
    var p := root + ext;
    var sep := RFind(root, '/');
    AppendExtRFinds(root, ext);
    NonDotInAgree(root, p, sep + 1, |root|);
    assert ExtStart(p) == |root|;
    assert p[..|root|] == root && p[|root|..] == ext;
  }

  /**
   A final component made of leading dots followed by dot-free text (a
   "dot-file" such as `.glb`) has an empty extension.
   */
  lemma DotFileExtEmpty(dir: string, dots: string, rest: string)
    requires dir == [] || dir[|dir| - 1] == '/'
    requires forall k :: 0 <= k < |dots| ==> dots[k] == '.'
    requires '.' !in rest && '/' !in rest
    ensures Ext(dir + dots + rest) == []
  {
    var p := dir + dots + rest;
    assert '/' !in dots + rest;
    RFindAppend(dir, dots + rest, '/');
    assert dir + (dots + rest) == p;
    var sep := RFind(p, '/');
    assert sep == |dir| - 1;
    assert forall k :: |dir| + |dots| <= k < |p| ==> p[k] == rest[k - |dir| - |dots|];
    forall i, j | sep < i < j < |p| && p[j] == '.'
      ensures p[i] == '.'
    {
      assert j < |dir| + |dots|;
      assert p[i] == dots[i - |dir|];
    }
    ExtNonEmptyIff(p);
  }

  /** A final component without any dot has an empty extension. */
  lemma NoDotExtEmpty(p: string)
    requires '.' !in Basename(p)
    ensures Ext(p) == []
  {
    var sep := RFind(p, '/');
    var dot := RFind(p, '.');
    forall j | sep < j < |p|
      ensures p[j] != '.'
    {
      assert p[j] == Basename(p)[j - sep - 1];
    }
    assert dot <= sep;
  }

  /**
   Independent reference: the extension found by reading the path once from
   left to right. `seenNonDot` records whether the current component has
   shown a character other than a dot; `ext` is the text from the latest
   dot that followed such a character, or empty.
   */
  datatype ScanState = ScanState(seenNonDot: bool, ext: string)

  function Step(st: ScanState, c: char): ScanState {
    if c == '/' then ScanState(false, [])
    else if c == '.' then ScanState(st.seenNonDot, if st.seenNonDot then "." else [])
    else ScanState(true, if st.ext == [] then [] else st.ext + [c])
  }

  function Scan(p: string): ScanState
    decreases |p|
  {
    if p == [] then ScanState(false, [])
    else Step(Scan(p[..|p| - 1]), p[|p| - 1])
  }

  /** Whether the final component is proper, after appending one character. */
  lemma ProperStemSnoc(q: string, x: char)
    ensures ProperStem(q + [x]) <==> x != '/' && (ProperStem(q) || x != '.')
  {
    var p := q + [x];
    var sep := RFind(q, '/');
    RFindSnoc(q, x, '/');
    if x != '/' {
      NonDotInAgree(q, p, sep + 1, |q|);
      if ProperStem(p) {
        var i :| sep + 1 <= i < |p| && p[i] != '.';
        if i < |q| {
          assert NonDotIn(p, sep + 1, |q|);
        }
      }
      if ProperStem(q) {
        var i :| sep + 1 <= i < |q| && q[i] != '.';
        assert p[i] != '.';
      }
      if x != '.' {
        assert p[|q|] != '.';
      }
    }
  }

  /** Appending a separator starts an empty final component. */
  lemma ExtAppendSlash(q: string)
    ensures Ext(q + ['/']) == []
  {
    var p := q + ['/'];
    RFindSnoc(q, '/', '/');
    RFindSnoc(q, '/', '.');
    assert ExtStart(p) == |p|;
  }

  /** Appending a dot gives the extension "." exactly when the final component was already proper. */
  lemma ExtAppendDot(q: string)
    ensures Ext(q + ['.']) == (if ProperStem(q) then "." else [])
  {
    var p := q + ['.'];
    var sep := RFind(q, '/');
    RFindSnoc(q, '.', '/');
    RFindSnoc(q, '.', '.');
    NonDotInAgree(q, p, sep + 1, |q|);
    if ProperStem(q) {
      assert ExtStart(p) == |q|;
      assert p[|q|..] == ".";
    } else {
      assert ExtStart(p) == |p|;
    }
  }

  /** Appending any other character extends a non-empty extension and leaves an empty one empty. */
  lemma ExtAppendOther(q: string, c: char)
    requires c != '/' && c != '.'
    ensures Ext(q + [c]) == (if Ext(q) == [] then [] else Ext(q) + [c])
  {
    var p := q + [c];
    var sep := RFind(q, '/');
    var dot := RFind(q, '.');
    RFindSnoc(q, c, '/');
    RFindSnoc(q, c, '.');
    if dot > sep {
      NonDotInAgree(q, p, sep + 1, dot);
    }
    if ExtStart(q) < |q| {
      assert ExtStart(p) == dot;
      assert p[dot..] == q[dot..] + [c];
    } else {
      assert ExtStart(p) == |p|;
    }
  }

  /** The left-to-right scan and `os.path.splitext` find the same extension. */
  lemma {:induction false} ScanAgreesWithSplitExt(p: string)
    ensures Scan(p).ext == Ext(p)
    ensures Scan(p).seenNonDot <==> ProperStem(p)
    decreases |p|
  {
    if p != [] {
      var q := p[..|p| - 1];
      var c := p[|p| - 1];
      assert p == q + [c];
      ScanAgreesWithSplitExt(q);
      ProperStemSnoc(q, c);
      if c == '/' {
        ExtAppendSlash(q);
      } else if c == '.' {
        ExtAppendDot(q);
      } else {
        ExtAppendOther(q, c);
      }
    }
  }
}
