/** The three Python `str` operations the recogniser adapter chains together
    to pull a transcript out of the engine's output: `strip()` with no
    argument, `split(sep)` with a one-character separator, and indexing the
    resulting list with `[-1]`. */
module PyStr {

  /** True for exactly the characters Python's `str.isspace` accepts, which is
      the set `str.strip()` with no argument removes: the ASCII controls
      U+0009..U+000D and U+001C..U+001F, the space, U+0085, U+00A0, U+1680,
      U+2000..U+200A, U+2028, U+2029, U+202F, U+205F and U+3000. */
  predicate IsSpace(c: char) {
    || ('\t' <= c <= '\r')
    || ('\U{1C}' <= c <= '\U{1F}')
    || c == ' '
    || c == '\U{85}'
    || c == '\U{A0}'
    || c == '\U{1680}'
    || ('\U{2000}' <= c <= '\U{200A}')
    || c == '\U{2028}'
    || c == '\U{2029}'
    || c == '\U{202F}'
    || c == '\U{205F}'
    || c == '\U{3000}'
  }

  predicate AllSpace(s: string) {
    forall i :: 0 <= i < |s| ==> IsSpace(s[i])
  }

  /** Neither the first nor the last character of `s` is whitespace. */
  predicate Trimmed(s: string) {
    |s| == 0 || (!IsSpace(s[0]) && !IsSpace(s[|s| - 1]))
  }

  /** `t` occurs in `s` as a contiguous run of characters. */
  ghost predicate IsInfix(t: string, s: string) {
    exists i, j :: 0 <= i <= j <= |s| && t == s[i..j]
  }

  // ---------------------------------------------------------------------
  // strip()
  // ---------------------------------------------------------------------

  /** Python's `s.lstrip()`. */
  function LStrip(s: string): (r: string)
    ensures |r| <= |s| && r == s[|s| - |r|..]
    ensures AllSpace(s[..|s| - |r|])
    ensures |r| == 0 || !IsSpace(r[0])
    decreases |s|
  {
    if |s| > 0 && IsSpace(s[0]) then
      var r := LStrip(s[1..]);
      assert s[..|s| - |r|] == [s[0]] + s[1..][..|s| - 1 - |r|];
      r
    else s
  }

  /** Python's `s.rstrip()`. */
  function RStrip(s: string): (r: string)
    ensures |r| <= |s| && r == s[..|r|]
    ensures AllSpace(s[|r|..])
    ensures |r| == 0 || !IsSpace(r[|r| - 1])
    decreases |s|
  {
    if |s| > 0 && IsSpace(s[|s| - 1]) then
      var r := RStrip(s[..|s| - 1]);
      assert s[|r|..] == s[..|s| - 1][|r|..] + [s[|s| - 1]];
      r
    else s
  }

  /** Python's `s.strip()`: what is left of `s` once a whitespace-only
      prefix and a whitespace-only suffix are cut away, neither starting nor
      ending with whitespace. */
  function Strip(s: string): (r: string)
    ensures IsStripOf(s, r)
  {
    var r := RStrip(LStrip(s));
    StripPartsAt(s);
    r
  }

  /** The independent description of `strip()`: `r` is what is left of `s`
      once a whitespace-only prefix and a whitespace-only suffix are cut
      away, and `r` itself neither starts nor ends with whitespace. */
  ghost predicate IsStripOf(s: string, r: string) {
    exists i, j :: StripsAt(s, r, i, j)
  }

  /** `r` is `s[i..j]`, with only whitespace before `i` and after `j`, and
      `r` neither starts nor ends with whitespace. */
  predicate StripsAt(s: string, r: string, i: int, j: int) {
    && 0 <= i <= j <= |s|
    && r == s[i..j]
    && AllSpace(s[..i])
    && AllSpace(s[j..])
    && Trimmed(r)
  }

  /** Right-stripping the left-stripped text leaves a cut `StripsAt`
      describes. */
  lemma StripPartsAt(s: string)
    ensures IsStripOf(s, RStrip(LStrip(s)))
  {
    var l := LStrip(s);
    var r := RStrip(l);
    var i := |s| - |l|;
    var j := i + |r|;
    assert r == l[..|r|];
    assert s[i..j] == r;
    assert s[j..] == l[|r|..];
    if |r| > 0 {
      assert r[0] == l[0];
    }
    assert StripsAt(s, r, i, j);
  }

  /** A whitespace-only prefix followed by a non-space character (or by
      nothing) is exactly what `lstrip()` removes. */
  lemma {:induction false} LStripAt(s: string, i: nat)
    requires i <= |s| && AllSpace(s[..i])
    requires i == |s| || !IsSpace(s[i])
    ensures LStrip(s) == s[i..]
    decreases i
  {
    if i > 0 {
      assert IsSpace(s[..i][0]);
      assert s[1..][..i - 1] == s[..i][1..];
      LStripAt(s[1..], i - 1);
    }
  }

  /** A whitespace-only suffix preceded by a non-space character (or by
      nothing) is exactly what `rstrip()` removes. */
  lemma {:induction false} RStripAt(s: string, j: nat)
    requires j <= |s| && AllSpace(s[j..])
    requires j == 0 || !IsSpace(s[j - 1])
    ensures RStrip(s) == s[..j]
    decreases |s| - j
  {
    if j < |s| {
      assert IsSpace(s[j..][|s| - 1 - j]);
      var s' := s[..|s| - 1];
      assert s'[j..] == s[j..][..|s| - 1 - j];
      RStripAt(s', j);
    }
  }

  /** An all-whitespace string strips to the empty string. */
  lemma StripAllSpace(s: string)
    requires AllSpace(s)
    ensures Strip(s) == []
  {
    assert s[..|s|] == s;
    LStripAt(s, |s|);
  }

  /** Cutting `s` at `i` and `j`, where everything outside is whitespace and
      the inside starts and ends with a non-space, is what `strip()` does. */
  lemma StripAt(s: string, i: nat, j: nat)
    requires i < j <= |s|
    requires AllSpace(s[..i]) && AllSpace(s[j..])
    requires !IsSpace(s[i]) && !IsSpace(s[j - 1])
    ensures Strip(s) == s[i..j]
  {
    var l, k := s[i..], j - i;
    assert l[..k] == s[i..j] && l[k..] == s[j..] && l[k - 1] == s[j - 1];
    assert AllSpace(l[k..]);
    LStripAt(s, i);
    RStripAt(l, k);
  }

  /** A string cut into two all-whitespace halves is all whitespace. */
  lemma AllSpaceAround(s: string, i: nat)
    requires i <= |s| && AllSpace(s[..i]) && AllSpace(s[i..])
    ensures AllSpace(s)
  {
    forall k | 0 <= k < |s| ensures IsSpace(s[k]) {
      if k < i {
        assert s[k] == s[..i][k];
      } else {
        assert s[k] == s[i..][k - i];
      }
    }
  }

  /** Whatever `IsStripOf` describes is what `Strip` returns. */
  lemma StripFromSpec(s: string, r: string)
    requires IsStripOf(s, r)
    ensures r == Strip(s)
  {
    var i, j :| StripsAt(s, r, i, j);
    if i == j {
      AllSpaceAround(s, i);
      StripAllSpace(s);
    } else {
      assert s[i] == r[0] && s[j - 1] == r[|r| - 1];
      StripAt(s, i, j);
    }
  }

  /** Whatever `Strip` returns is the unique result described by `IsStripOf`. */
  lemma StripCharacterized(s: string, r: string)
    ensures IsStripOf(s, r) <==> r == Strip(s)
  {
    if IsStripOf(s, r) {
      StripFromSpec(s, r);
    }
  }

  /** `strip()` returns a trimmed run of characters of its argument, and an
      all-whitespace argument yields the empty string. */
  lemma StripProperties(s: string)
    ensures Trimmed(Strip(s))
    ensures IsInfix(Strip(s), s)
    ensures forall c :: c in Strip(s) ==> c in s
    ensures AllSpace(s) <==> Strip(s) == []
  {
    var i, j :| StripsAt(s, Strip(s), i, j);
    StripsAtProperties(s, Strip(s), i, j);
  }

  lemma StripsAtProperties(s: string, r: string, i: int, j: int)
    requires StripsAt(s, r, i, j)
    ensures Trimmed(r)
    ensures IsInfix(r, s)
    ensures forall c :: c in r ==> c in s
    ensures AllSpace(s) <==> r == []
  {
    assert IsInfix(r, s);
    forall c | c in r ensures c in s {
      var k :| 0 <= k < |r| && r[k] == c;
      assert s[i + k] == c;
    }
    if r == [] {
      AllSpaceAround(s, i);
    } else {
      assert !IsSpace(s[i]);
    }
  }

  /** `strip()` is idempotent. */
  lemma StripIdempotent(s: string)
    ensures Strip(Strip(s)) == Strip(s)
  {
    var r := Strip(s);
    StripProperties(s);
    assert StripsAt(r, r, 0, |r|) by {
      assert r[0..|r|] == r;
      assert r[..0] == [] && r[|r|..] == [];
    }
    StripCharacterized(r, r);
  }

  // ---------------------------------------------------------------------
  // split(sep) and [-1]
  // ---------------------------------------------------------------------

  /** Python's `s.split(sep)` for a one-character `sep`: the pieces between
      consecutive occurrences of `sep`. There is always at least one piece,
      so the `[-1]` applied to it in the adapter never raises. */
  function Split(s: string, sep: char): (pieces: seq<string>)
    ensures |pieces| >= 1
    ensures forall k :: 0 <= k < |pieces| ==> sep !in pieces[k]
    decreases |s|
  {
    if |s| == 0 then [[]]
    else
      var rest := Split(s[1..], sep);
      if s[0] == sep then [[]] + rest
      else [[s[0]] + rest[0]] + rest[1..]
  }

  /** Python's `sep.join(pieces)`, the inverse of `Split`. */
  function Join(pieces: seq<string>, sep: char): string
    requires |pieces| >= 1
    decreases |pieces|
  {
    if |pieces| == 1 then pieces[0] else pieces[0] + [sep] + Join(pieces[1..], sep)
  }

  /** Python's `xs[-1]`. */
  function Last<T>(xs: seq<T>): T
    requires |xs| >= 1
  {
    xs[|xs| - 1]
  }

  /** Joining the pieces back with the separator gives the original text. */
  lemma {:induction false} SplitThenJoin(s: string, sep: char)
    ensures Join(Split(s, sep), sep) == s
    decreases |s|
  {
    if |s| > 0 {
      var rest := Split(s[1..], sep);
      SplitThenJoin(s[1..], sep);
      if s[0] == sep {
        assert Split(s, sep)[1..] == rest;
        assert s == [s[0]] + s[1..];
      } else {
        var ps := Split(s, sep);
        if |rest| == 1 {
          assert ps == [[s[0]] + rest[0]];
        } else {
          assert ps[1..] == rest[1..];
          assert Join(rest, sep) == rest[0] + [sep] + Join(rest[1..], sep);
        }
        assert s == [s[0]] + s[1..];
      }
    }
  }

  /** Splitting a text with no separator yields that text as the only piece. */
  lemma {:induction false} SplitNoSeparator(s: string, sep: char)
    requires sep !in s
    ensures Split(s, sep) == [s]
    decreases |s|
  {
    if |s| > 0 {
      SplitNoSeparator(s[1..], sep);
      assert s == [s[0]] + s[1..];
    }
  }

  /** Splitting `p + sep + t`, where `p` has no separator, peels `p` off. */
  lemma {:induction false} SplitCons(p: string, sep: char, t: string)
    requires sep !in p
    ensures Split(p + [sep] + t, sep) == [p] + Split(t, sep)
    decreases |p|
  {
    var s := p + [sep] + t;
    if |p| == 0 {
      assert s[1..] == t;
    } else {
      assert s[1..] == p[1..] + [sep] + t;
      SplitCons(p[1..], sep, t);
      assert [p[0]] + p[1..] == p;
    }
  }

  /** The other round trip: splitting a join of separator-free pieces gives
      the pieces back. */
  lemma {:induction false} JoinThenSplit(pieces: seq<string>, sep: char)
    requires |pieces| >= 1
    requires forall k :: 0 <= k < |pieces| ==> sep !in pieces[k]
    ensures Split(Join(pieces, sep), sep) == pieces
    decreases |pieces|
  {
    if |pieces| == 1 {
      SplitNoSeparator(pieces[0], sep);
    } else {
      JoinThenSplit(pieces[1..], sep);
      SplitCons(pieces[0], sep, Join(pieces[1..], sep));
      assert [pieces[0]] + pieces[1..] == pieces;
    }
  }

  /** Joining all pieces equals joining all but the last, the separator and
      the last piece. */
  lemma {:induction false} JoinSnoc(pieces: seq<string>, sep: char)
    requires |pieces| >= 2
    ensures Join(pieces, sep) == Join(pieces[..|pieces| - 1], sep) + [sep] + Last(pieces)
    decreases |pieces|
  {
    if |pieces| > 2 {
      JoinSnoc(pieces[1..], sep);
      assert pieces[1..][..|pieces| - 2] == pieces[..|pieces| - 1][1..];
    }
  }

  /** The independent description of `s.split(sep)[-1]`: `t` is a suffix of
      `s` that holds no separator and is either all of `s` or preceded by a
      separator. */
  predicate IsTextAfterLast(s: string, sep: char, t: string) {
    && |t| <= |s|
    && t == s[|s| - |t|..]
    && sep !in t
    && (|t| == |s| || s[|s| - |t| - 1] == sep)
  }

  /** There is exactly one text after the last separator. */
  lemma TextAfterLastUnique(s: string, sep: char, t1: string, t2: string)
    requires IsTextAfterLast(s, sep, t1) && IsTextAfterLast(s, sep, t2)
    ensures t1 == t2
  {
    forall k | |s| - |t1| <= k < |s| ensures s[k] != sep {
      assert s[k] == t1[k - (|s| - |t1|)];
    }
    forall k | |s| - |t2| <= k < |s| ensures s[k] != sep {
      assert s[k] == t2[k - (|s| - |t2|)];
    }
  }

  /** `s.split(sep)[-1]` is the text after the last separator. */
  lemma LastPieceIsTextAfterLast(s: string, sep: char)
    ensures IsTextAfterLast(s, sep, Last(Split(s, sep)))
  {
    var ps := Split(s, sep);
    SplitThenJoin(s, sep);
    if |ps| >= 2 {
      JoinSnoc(ps, sep);
    }
  }
}
