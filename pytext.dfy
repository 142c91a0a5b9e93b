/**
 * The pieces of Python's string library the segmenter relies on:
 * `str.isspace` (which is also what `\s` matches in a `str` regex),
 * `str.strip()`, `str.split('\n')` and `re.sub(r'\n{2,}', '\n', ·)`.
 * Strings are sequences of code points.
 */
module PyText {

  /** The characters for which Python's `str.isspace()` holds. */
  predicate IsSpace(c: char) {
    ('\t' <= c <= '\r') || ('\U{1C}' <= c <= '\U{1F}') || c == ' ' || c == '\U{85}' || c == '\U{A0}'
    || c == '\U{1680}' || ('\U{2000}' <= c <= '\U{200A}') || c == '\U{2028}' || c == '\U{2029}'
    || c == '\U{202F}' || c == '\U{205F}' || c == '\U{3000}'
  }

  predicate AllSpace(s: string) {
    forall i :: 0 <= i < |s| ==> IsSpace(s[i])
  }

  /** No whitespace at either end: what `str.strip()` produces. */
  predicate IsStripped(s: string) {
    s == [] || (!IsSpace(s[0]) && !IsSpace(s[|s| - 1]))
  }

  /** The first position at or after `i` that does not hold whitespace (or `|s|`). */
  function SkipSpaces(s: string, i: nat): (k: nat)
    requires i <= |s|
    ensures i <= k <= |s|
    ensures forall m :: i <= m < k ==> IsSpace(s[m])
    ensures k < |s| ==> !IsSpace(s[k])
    decreases |s| - i
  {
    if i == |s| || !IsSpace(s[i]) then i else SkipSpaces(s, i + 1)
  }

  /** The position after the last character before `j` that is not whitespace (or 0). */
  function SkipSpacesBack(s: string, j: nat): (k: nat)
    requires j <= |s|
    ensures k <= j
    ensures forall m :: k <= m < j ==> IsSpace(s[m])
    ensures k > 0 ==> !IsSpace(s[k - 1])
  {
    if j == 0 || !IsSpace(s[j - 1]) then j else SkipSpacesBack(s, j - 1)
  }

  /** `s.strip()`: the text between the leading and the trailing whitespace. */
  function Strip(s: string): (r: string)
    ensures IsStripped(r)
  {
    var i := SkipSpaces(s, 0);
    if i == |s| then [] else s[i .. SkipSpacesBack(s, |s|)]
  }

  /** `strip` keeps only characters of its input. */
  lemma {:induction false} StripKeepsCharacters(s: string)
    ensures forall c :: c in Strip(s) ==> c in s
  {
    var i := SkipSpaces(s, 0);
    if i < |s| {
      var r := s[i .. SkipSpacesBack(s, |s|)];
      forall c | c in r ensures c in s {
        var j :| 0 <= j < |r| && r[j] == c;
        assert s[i + j] == c;
      }
    }
  }

  /** `strip` removes whitespace from the two ends and nothing else. */
  lemma {:induction false} StripRemovesOnlyOuterSpace(s: string)
    ensures exists a, b :: AllSpace(a) && AllSpace(b) && s == a + Strip(s) + b
  {
    var i := SkipSpaces(s, 0);
    var j := if i == |s| then i else SkipSpacesBack(s, |s|);
    var a, r, b := s[..i], s[i..j], s[j..];
    assert Strip(s) == r;
    assert s == a + r + b;
    assert AllSpace(a) by {
      forall m | 0 <= m < |a| ensures IsSpace(a[m]) {
        assert a[m] == s[m];
      }
    }
    assert AllSpace(b) by {
      forall m | 0 <= m < |b| ensures IsSpace(b[m]) {
        assert b[m] == s[j + m];
      }
    }
  }

  /** Whatever is wrapped in whitespace, `strip` gives back exactly the stripped core. */
  lemma {:induction false} StripUnique(a: string, r: string, b: string)
    requires AllSpace(a) && AllSpace(b) && IsStripped(r)
    ensures Strip(a + r + b) == r
  {
    var s := a + r + b;
    var n, e := |a|, |a| + |r|;
    assert forall m :: 0 <= m < n ==> s[m] == a[m];
    assert forall m :: e <= m < |s| ==> s[m] == b[m - e];
    if r == [] {
      SkipSpacesFrom(s, 0, |s|);
    } else {
      assert s[n] == r[0] && s[e - 1] == r[|r| - 1];
      SkipSpacesFrom(s, 0, n);
      SkipSpacesBackFrom(s, |s|, e);
      assert s[n..e] == r;
    }
  }

  lemma {:induction false} SkipSpacesFrom(s: string, i: nat, k: nat)
    requires i <= k <= |s|
    requires forall m :: i <= m < k ==> IsSpace(s[m])
    requires k < |s| ==> !IsSpace(s[k])
    ensures SkipSpaces(s, i) == k
    decreases k - i
  {
    if i < k {
      SkipSpacesFrom(s, i + 1, k);
    }
  }

  lemma {:induction false} SkipSpacesBackFrom(s: string, j: nat, k: nat)
    requires k <= j <= |s|
    requires forall m :: k <= m < j ==> IsSpace(s[m])
    requires k > 0 ==> !IsSpace(s[k - 1])
    ensures SkipSpacesBack(s, j) == k
    decreases j - k
  {
    if k < j {
      SkipSpacesBackFrom(s, j - 1, k);
    }
  }

  /** `strip` is idempotent, and leaves an already stripped string alone. */
  lemma {:induction false} StripIdempotent(s: string)
    ensures Strip(Strip(s)) == Strip(s)
    ensures IsStripped(s) ==> Strip(s) == s
  {
    StripUnique([], Strip(s), []);
    assert [] + Strip(s) + [] == Strip(s);
    if IsStripped(s) {
      StripUnique([], s, []);
      assert [] + s + [] == s;
    }
  }

  /** `s.split('\n')`: the pieces between newline characters, always at least one. */
  function SplitLines(s: string): (pieces: seq<string>)
    ensures |pieces| >= 1
  {
    if s == [] then [""]
    else
      var init := SplitLines(s[..|s| - 1]);
      var c := s[|s| - 1];
      if c == '\n' then init + [""] else AppendToLast(init, [c])
  }

  /** The pieces with `t` added to the end of the last one. */
  function AppendToLast(ps: seq<string>, t: string): seq<string>
    requires |ps| >= 1
  {
    ps[..|ps| - 1] + [ps[|ps| - 1] + t]
  }

  /** No piece of a split contains a newline. */
  lemma {:induction false} SplitLinesHaveNoNewline(s: string)
    ensures forall k :: 0 <= k < |SplitLines(s)| ==> '\n' !in SplitLines(s)[k]
  {
    if s != [] {
      var init := s[..|s| - 1];
      SplitLinesHaveNoNewline(init);
      var ps := SplitLines(init);
      if s[|s| - 1] != '\n' {
        assert '\n' !in ps[|ps| - 1] + [s[|s| - 1]];
      }
    }
  }

  /** `'\n'.join(pieces)`. */
  function JoinLines(pieces: seq<string>): string
    requires |pieces| >= 1
  {
    if |pieces| == 1 then pieces[0]
    else JoinLines(pieces[..|pieces| - 1]) + "\n" + pieces[|pieces| - 1]
  }

  /** Joining the pieces of a split with newlines gives back the text. */
  lemma {:induction false} JoinSplitLines(s: string)
    ensures JoinLines(SplitLines(s)) == s
  {
    if s != [] {
      var init, c := s[..|s| - 1], s[|s| - 1];
      assert s == init + [c];
      JoinSplitLines(init);
      JoinSplitSnoc(init, c);
    }
  }

  lemma {:induction false} JoinSplitSnoc(init: string, c: char)
    requires JoinLines(SplitLines(init)) == init
    ensures JoinLines(SplitLines(init + [c])) == init + [c]
  {
    var ps := SplitLines(init);
    SplitLinesSnoc(init, c);
    if c == '\n' {
      JoinSnoc(ps, "");
      assert init + "\n" + "" == init + [c];
    } else {
      JoinAppendToLast(ps, [c]);
    }
  }

  /** One more character: a newline starts a new piece, anything else extends the last one. */
  lemma {:induction false} SplitLinesSnoc(s: string, c: char)
    ensures SplitLines(s + [c]) == if c == '\n' then SplitLines(s) + [""] else AppendToLast(SplitLines(s), [c])
  {
    assert (s + [c])[..|s|] == s;
  }

  lemma {:induction false} JoinSnoc(ps: seq<string>, t: string)
    requires |ps| >= 1
    ensures JoinLines(ps + [t]) == JoinLines(ps) + "\n" + t
  {
    assert (ps + [t])[..|ps|] == ps;
  }

  lemma {:induction false} JoinAppendToLast(ps: seq<string>, t: string)
    requires |ps| >= 1
    ensures JoinLines(AppendToLast(ps, t)) == JoinLines(ps) + t
  {
    var qs := AppendToLast(ps, t);
    if |ps| > 1 {
      assert qs[..|qs| - 1] == ps[..|ps| - 1];
      assert JoinLines(qs) == JoinLines(ps[..|ps| - 1]) + "\n" + (ps[|ps| - 1] + t);
    }
  }

  /** Splitting newline-free pieces joined with newlines gives back the pieces. */
  lemma {:induction false} SplitJoinLines(pieces: seq<string>)
    requires |pieces| >= 1
    requires forall k :: 0 <= k < |pieces| ==> '\n' !in pieces[k]
    ensures SplitLines(JoinLines(pieces)) == pieces
  {
    var last := pieces[|pieces| - 1];
    if |pieces| == 1 {
      SplitAppendPlain("", last);
      assert "" + last == last;
      assert AppendToLast([""], last) == [last];
    } else {
      var init := pieces[..|pieces| - 1];
      assert pieces == init + [last];
      SplitJoinLines(init);
      SplitJoinSnoc(init, last);
    }
  }

  lemma {:induction false} SplitJoinSnoc(init: seq<string>, last: string)
    requires |init| >= 1 && '\n' !in last
    requires SplitLines(JoinLines(init)) == init
    ensures SplitLines(JoinLines(init + [last])) == init + [last]
  {
    var j := JoinLines(init);
    JoinSnoc(init, last);
    SplitLinesSnoc(j, '\n');
    SplitAppendPlain(j + "\n", last);
    var ps := init + [""];
    assert AppendToLast(ps, last) == init + [last] by {
      assert ps[..|ps| - 1] == init;
      assert ps[|ps| - 1] + last == last;
    }
  }

  /** Appending newline-free text extends the last piece. */
  lemma {:induction false} SplitAppendPlain(s: string, t: string)
    requires '\n' !in t
    ensures SplitLines(s + t) == AppendToLast(SplitLines(s), t)
  {
    var ps := SplitLines(s);
    if t == [] {
      assert s + t == s;
      assert ps[|ps| - 1] + t == ps[|ps| - 1];
      assert AppendToLast(ps, t) == ps;
    } else {
      var t', c := t[..|t| - 1], t[|t| - 1];
      assert t' + [c] == t;
      assert s + t == (s + t') + [c];
      assert '\n' !in t' by {
        forall i | 0 <= i < |t'| ensures t'[i] != '\n' {
          assert t'[i] == t[i];
        }
      }
      SplitAppendPlain(s, t');
      SplitLinesSnoc(s + t', c);
      AppendTwice(ps, t', [c]);
    }
  }

  lemma {:induction false} AppendTwice(ps: seq<string>, t: string, u: string)
    requires |ps| >= 1
    ensures AppendToLast(AppendToLast(ps, t), u) == AppendToLast(ps, t + u)
  {
    var qs := AppendToLast(ps, t);
    assert qs[..|qs| - 1] == ps[..|ps| - 1];
    assert qs[|qs| - 1] + u == ps[|ps| - 1] + (t + u);
  }

  predicate NoDoubleNewline(s: string) {
    forall i :: 0 <= i < |s| - 1 ==> !(s[i] == '\n' && s[i + 1] == '\n')
  }

  /**
   * `re.sub(r'\n{2,}', '\n', s)`: every run of two or more newlines becomes a
   * single newline; a newline directly after a newline is dropped.
   */
  function CollapseNewlines(s: string): string {
    if s == [] then []
    else
      var init := s[..|s| - 1];
      if |s| >= 2 && s[|s| - 1] == '\n' && s[|s| - 2] == '\n' then CollapseNewlines(init)
      else CollapseNewlines(init) + [s[|s| - 1]]
  }

  /**
   * The substitution leaves no doubled newline, keeps the last character and
   * keeps every other character as often as it was.
   */
  lemma {:induction false} CollapseNewlinesSound(s: string)
    ensures NoDoubleNewline(CollapseNewlines(s))
    ensures |s| > 0 ==> |CollapseNewlines(s)| > 0 && CollapseNewlines(s)[|CollapseNewlines(s)| - 1] == s[|s| - 1]
    ensures forall c :: c != '\n' ==> multiset(CollapseNewlines(s))[c] == multiset(s)[c]
  {
    if s != [] {
      var init, last := s[..|s| - 1], s[|s| - 1];
      CollapseNewlinesSound(init);
      assert s == init + [last];
      var r := CollapseNewlines(init);
      if !(|s| >= 2 && last == '\n' && s[|s| - 2] == '\n') {
        var r' := r + [last];
        assert NoDoubleNewline(r') by {
          forall i | 0 <= i < |r'| - 1 ensures !(r'[i] == '\n' && r'[i + 1] == '\n') {
            if i < |r| - 1 {
              assert r'[i] == r[i] && r'[i + 1] == r[i + 1];
            }
          }
        }
      }
    }
  }

  /** Text without a doubled newline is what the substitution leaves unchanged. */
  lemma {:induction false} CollapseFixedPoint(s: string)
    ensures CollapseNewlines(s) == s <==> NoDoubleNewline(s)
  {
    CollapseNewlinesSound(s);
    if s != [] {
      var init := s[..|s| - 1];
      if NoDoubleNewline(s) {
        assert NoDoubleNewline(init) by {
          forall i | 0 <= i < |init| - 1 ensures !(init[i] == '\n' && init[i + 1] == '\n') {
            assert init[i] == s[i] && init[i + 1] == s[i + 1];
          }
        }
        CollapseFixedPoint(init);
        assert init + [s[|s| - 1]] == s;
      }
    }
  }

  /** The non-empty strings of `xs`, in order. */
  function NonEmpty(xs: seq<string>): seq<string> {
    if xs == [] then []
    else
      var init := NonEmpty(xs[..|xs| - 1]);
      if xs[|xs| - 1] == "" then init else init + [xs[|xs| - 1]]
  }

  /** Filtering keeps only non-empty strings, each taken from the input. */
  lemma {:induction false} NonEmptyIsFilter(xs: seq<string>)
    ensures |NonEmpty(xs)| <= |xs|
    ensures forall k :: 0 <= k < |NonEmpty(xs)| ==> NonEmpty(xs)[k] != "" && NonEmpty(xs)[k] in xs
  {
    if xs != [] {
      var init := xs[..|xs| - 1];
      NonEmptyIsFilter(init);
      assert forall y :: y in init ==> y in xs;
    }
  }

  lemma {:induction false} NonEmptyAppend(xs: seq<string>, ys: seq<string>)
    ensures NonEmpty(xs + ys) == NonEmpty(xs) + NonEmpty(ys)
  {
    if ys != [] {
      var zs := xs + ys;
      assert zs[..|zs| - 1] == xs + ys[..|ys| - 1];
      NonEmptyAppend(xs, ys[..|ys| - 1]);
    } else {
      assert xs + ys == xs;
    }
  }

  /**
   * Collapsing newline runs only removes empty pieces from the split: the
   * non-empty lines, in order, are the same with or without it.
   */
  lemma {:induction false} CollapseKeepsNonEmptyLines(s: string)
    ensures NonEmpty(SplitLines(CollapseNewlines(s))) == NonEmpty(SplitLines(s))
  {
    CollapseSplitInvariant(s);
  }

  /** Both splits end in the same piece and agree, up to empty pieces, before it. */
  ghost predicate SameUpToEmpty(x: seq<string>, y: seq<string>)
    requires |x| >= 1 && |y| >= 1
  {
    x[|x| - 1] == y[|y| - 1] && NonEmpty(x[..|x| - 1]) == NonEmpty(y[..|y| - 1])
  }

  lemma {:induction false} CollapseSplitInvariant(s: string)
    ensures SameUpToEmpty(SplitLines(CollapseNewlines(s)), SplitLines(s))
  {
    if s != [] {
      var p := s[..|s| - 1];
      var c := s[|s| - 1];
      assert p + [c] == s;
      CollapseSplitInvariant(p);
      if c != '\n' {
        ExtendLastPiece(CollapseNewlines(p), p, c);
      } else if |s| >= 2 && s[|s| - 2] == '\n' {
        DropRepeatedNewline(CollapseNewlines(p), p);
      } else {
        assert CollapseNewlines(s) == CollapseNewlines(p) + ['\n'];
        StartNewPiece(CollapseNewlines(p), p);
      }
    }
  }

  lemma {:induction false} ExtendLastPiece(a: string, b: string, c: char)
    requires c != '\n'
    requires SameUpToEmpty(SplitLines(a), SplitLines(b))
    ensures SameUpToEmpty(SplitLines(a + [c]), SplitLines(b + [c]))
  {
    assert (a + [c])[..|a|] == a;
    assert (b + [c])[..|b|] == b;
    var xa, xb := SplitLines(a), SplitLines(b);
    var ya, yb := SplitLines(a + [c]), SplitLines(b + [c]);
    assert ya[..|ya| - 1] == xa[..|xa| - 1];
    assert yb[..|yb| - 1] == xb[..|xb| - 1];
  }

  lemma {:induction false} DropRepeatedNewline(a: string, b: string)
    requires |b| >= 1 && b[|b| - 1] == '\n'
    requires SameUpToEmpty(SplitLines(a), SplitLines(b))
    ensures SameUpToEmpty(SplitLines(a), SplitLines(b + ['\n']))
  {
    assert (b + ['\n'])[..|b|] == b;
    var xa, xb := SplitLines(a), SplitLines(b);
    var yb := SplitLines(b + ['\n']);
    assert b[..|b| - 1] + ['\n'] == b;
    assert xb[|xb| - 1] == "";
    assert yb[..|yb| - 1] == xb;
    assert xb[..|xb| - 1] + [""] == xb;
  }

  lemma {:induction false} StartNewPiece(a: string, b: string)
    requires SameUpToEmpty(SplitLines(a), SplitLines(b))
    ensures SameUpToEmpty(SplitLines(a + ['\n']), SplitLines(b + ['\n']))
  {
    assert (a + ['\n'])[..|a|] == a;
    assert (b + ['\n'])[..|b|] == b;
    var xa, xb := SplitLines(a), SplitLines(b);
    var ya, yb := SplitLines(a + ['\n']), SplitLines(b + ['\n']);
    assert ya[..|ya| - 1] == xa;
    assert yb[..|yb| - 1] == xb;
  }
}
