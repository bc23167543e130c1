/**
  Bytes, the four special SLIP byte values, and the handful of byte-string
  operations the SLIP modules are written with: stripping END bytes,
  substring replacement, splitting on a separator and splitting on runs of
  END bytes.  Each is a total recursive function, so that the modules built
  on them can reason about their results by induction.
 */
module SlipBytes {

  datatype Option<T> = None | Some(value: T)

  /** A byte: an integer in 0..255. */
  type Byte = b: int | 0 <= b < 256

  /** The SLIP frame delimiter. */
  const END: Byte := 0xC0
  /** The SLIP escape byte. */
  const ESC: Byte := 0xDB
  /** The escaped form of END (it follows an ESC). */
  const ESC_END: Byte := 0xDC
  /** The escaped form of ESC (it follows an ESC). */
  const ESC_ESC: Byte := 0xDD

  // ---------------------------------------------------------------------------
  // Stripping END bytes (bytes.lstrip / rstrip / strip with argument END)
  // ---------------------------------------------------------------------------

  /** `s` without its leading END bytes. */
  function LStripEnd(s: seq<Byte>): (r: seq<Byte>)
    ensures |r| <= |s|
    ensures r == [] || r[0] != END
    decreases |s|
  {
    if s != [] && s[0] == END then LStripEnd(s[1..]) else s
  }

  /** LStripEnd removes a prefix of END bytes and keeps the rest. */
  lemma {:induction false} LStripEndRemovesEnds(s: seq<Byte>)
    ensures LStripEnd(s) == s[|s| - |LStripEnd(s)|..]
    ensures forall i :: 0 <= i < |s| - |LStripEnd(s)| ==> s[i] == END
    decreases |s|
  {
    if s != [] && s[0] == END {
      LStripEndRemovesEnds(s[1..]);
    }
  }

  /** `s` without its trailing END bytes. */
  function RStripEnd(s: seq<Byte>): (r: seq<Byte>)
    ensures |r| <= |s|
    ensures r == [] || r[|r| - 1] != END
    decreases |s|
  {
    if s != [] && s[|s| - 1] == END then RStripEnd(s[..|s| - 1]) else s
  }

  /** RStripEnd removes a suffix of END bytes and keeps the rest. */
  lemma {:induction false} RStripEndRemovesEnds(s: seq<Byte>)
    ensures RStripEnd(s) == s[..|RStripEnd(s)|]
    ensures forall i :: |RStripEnd(s)| <= i < |s| ==> s[i] == END
    decreases |s|
  {
    if s != [] && s[|s| - 1] == END {
      RStripEndRemovesEnds(s[..|s| - 1]);
    }
  }

  /** `s` without its leading and trailing END bytes. */
  function StripEnd(s: seq<Byte>): (r: seq<Byte>)
  {
    RStripEnd(LStripEnd(s))
  }

  /** What StripEnd removes is END bytes at either end, and nothing else. */
  lemma StripEndShape(s: seq<Byte>)
    ensures exists a, b :: 0 <= a <= b <= |s| && StripEnd(s) == s[a..b]
    ensures StripEnd(s) == [] || (StripEnd(s)[0] != END && StripEnd(s)[|StripEnd(s)| - 1] != END)
    ensures END !in s ==> StripEnd(s) == s
  {
    var l := LStripEnd(s);
    var r := RStripEnd(l);
    var a := |s| - |l|;
    LStripEndRemovesEnds(s);
    RStripEndRemovesEnds(l);
    assert l == s[a..];
    assert r == l[..|r|] == s[a..a + |r|];
    if r != [] {
      assert r[0] == l[0];
    }
  }

  /** Stripping twice is stripping once. */
  lemma StripEndIdempotent(s: seq<Byte>)
    ensures StripEnd(StripEnd(s)) == StripEnd(s)
  {
    StripEndShape(s);
  }

  /** Stripping a string whose interior holds no END leaves exactly that interior. */
  lemma StripEndFramed(pre: seq<Byte>, body: seq<Byte>, post: seq<Byte>)
    requires forall i :: 0 <= i < |pre| ==> pre[i] == END
    requires forall i :: 0 <= i < |post| ==> post[i] == END
    requires END !in body
    ensures StripEnd(pre + body + post) == body
  {
    if body == [] {
      assert pre + body + post == (pre + post) + [];
      forall i | 0 <= i < |pre + post| ensures (pre + post)[i] == END {
        if i >= |pre| { assert (pre + post)[i] == post[i - |pre|]; }
      }
      LStripEndPrefix(pre + post, []);
    } else {
      LStripEndPrefix(pre, body + post);
      assert pre + body + post == pre + (body + post);
      RStripEndSuffix(body, post);
    }
  }

  lemma {:induction false} LStripEndPrefix(pre: seq<Byte>, rest: seq<Byte>)
    requires forall i :: 0 <= i < |pre| ==> pre[i] == END
    requires rest == [] || rest[0] != END
    ensures LStripEnd(pre + rest) == rest
    decreases |pre|
  {
    if pre != [] {
      assert (pre + rest)[1..] == pre[1..] + rest;
      LStripEndPrefix(pre[1..], rest);
    } else {
      assert pre + rest == rest;
    }
  }

  lemma {:induction false} RStripEndSuffix(rest: seq<Byte>, post: seq<Byte>)
    requires forall i :: 0 <= i < |post| ==> post[i] == END
    requires rest == [] || rest[|rest| - 1] != END
    ensures RStripEnd(rest + post) == rest
    decreases |post|
  {
    if post != [] {
      var post' := post[..|post| - 1];
      assert (rest + post)[..|rest + post| - 1] == rest + post';
      RStripEndSuffix(rest, post');
    } else {
      assert rest + post == rest;
    }
  }

  /** Leading END bytes of a concatenation. */
  lemma LStripEndAppend(a: seq<Byte>, b: seq<Byte>)
    ensures LStripEnd(a + b) == if LStripEnd(a) == [] then LStripEnd(b) else LStripEnd(a) + b
    decreases |a|
  {
    if a == [] {
      assert a + b == b;
    } else if a[0] == END {
      assert (a + b)[1..] == a[1..] + b;
      LStripEndAppend(a[1..], b);
    }
  }

  // ---------------------------------------------------------------------------
  // bytes.replace(pat, rep): leftmost, non-overlapping substitution
  // ---------------------------------------------------------------------------

  /** `s` with every occurrence of `pat`, found left to right without overlap, replaced by `rep`. */
  function Replace(s: seq<Byte>, pat: seq<Byte>, rep: seq<Byte>): seq<Byte>
    requires pat != []
    decreases |s|
  {
    if |s| < |pat| then s
    else if s[..|pat|] == pat then rep + Replace(s[|pat|..], pat, rep)
    else [s[0]] + Replace(s[1..], pat, rep)
  }

  /** Replacing a single byte distributes over concatenation. */
  lemma {:induction false} ReplaceByteAppend(a: seq<Byte>, b: seq<Byte>, x: Byte, rep: seq<Byte>)
    ensures Replace(a + b, [x], rep) == Replace(a, [x], rep) + Replace(b, [x], rep)
    decreases |a|
  {
    if a == [] {
      assert a + b == b;
    } else {
      assert (a + b)[1..] == a[1..] + b;
      assert (a + b)[..1] == a[..1];
      ReplaceByteAppend(a[1..], b, x, rep);
    }
  }

  /** A byte that cannot start `pat` is passed through by Replace. */
  lemma ReplaceCons(c: Byte, s: seq<Byte>, pat: seq<Byte>, rep: seq<Byte>)
    requires pat != [] && c != pat[0]
    ensures Replace([c] + s, pat, rep) == [c] + Replace(s, pat, rep)
  {
    assert ([c] + s)[1..] == s;
  }

  /** A leading occurrence of `pat` is replaced. */
  lemma ReplaceHead(s: seq<Byte>, pat: seq<Byte>, rep: seq<Byte>)
    requires pat != []
    ensures Replace(pat + s, pat, rep) == rep + Replace(s, pat, rep)
  {
    assert (pat + s)[..|pat|] == pat;
    assert (pat + s)[|pat|..] == s;
  }

  // ---------------------------------------------------------------------------
  // bytes.split(sep): the pieces between leftmost, non-overlapping occurrences
  // ---------------------------------------------------------------------------

  /** The pieces of `s` between the occurrences of `sep`, found left to right without overlap. */
  function SplitOn(s: seq<Byte>, sep: seq<Byte>): (r: seq<seq<Byte>>)
    requires sep != []
    ensures |r| >= 1
    decreases |s|
  {
    if |s| < |sep| then [s]
    else if s[..|sep|] == sep then [[]] + SplitOn(s[|sep|..], sep)
    else var rest := SplitOn(s[1..], sep); [[s[0]] + rest[0]] + rest[1..]
  }

  /** The concatenation of a sequence of byte strings. */
  function Flatten(ss: seq<seq<Byte>>): (r: seq<Byte>)
    decreases |ss|
  {
    if ss == [] then [] else ss[0] + Flatten(ss[1..])
  }

  /** Concatenation regroups. */
  lemma AppendAssoc<T>(a: seq<T>, b: seq<T>, c: seq<T>)
    ensures a + (b + c) == (a + b) + c
  {
  }

  lemma {:induction false} FlattenAppend(a: seq<seq<Byte>>, b: seq<seq<Byte>>)
    ensures Flatten(a + b) == Flatten(a) + Flatten(b)
    decreases |a|
  {
    if a == [] {
      assert a + b == b;
    } else {
      assert (a + b)[1..] == a[1..] + b;
      FlattenAppend(a[1..], b);
    }
  }

  // ---------------------------------------------------------------------------
  // re.split(END + b"+", s): the pieces between maximal runs of END bytes
  // ---------------------------------------------------------------------------

  /**
    The pieces of `s` between maximal runs of END bytes, as `re.split` with the
    pattern "one or more END" gives them: there is always at least one piece,
    a leading run gives an empty first piece and a trailing run an empty last
    piece.
   */
  function SplitEndRuns(s: seq<Byte>): (r: seq<seq<Byte>>)
    ensures |r| >= 1
    decreases |s|
  {
    if s == [] then [[]]
    else if s[0] == END then [[]] + SplitEndRuns(LStripEnd(s))
    else var rest := SplitEndRuns(s[1..]); [[s[0]] + rest[0]] + rest[1..]
  }

  /** No piece contains END. */
  lemma {:induction false} SplitEndRunsPiecesEndFree(s: seq<Byte>)
    ensures forall i :: 0 <= i < |SplitEndRuns(s)| ==> END !in SplitEndRuns(s)[i]
    decreases |s|
  {
    if s == [] {
    } else if s[0] == END {
      SplitEndRunsPiecesEndFree(LStripEnd(s));
    } else {
      SplitEndRunsPiecesEndFree(s[1..]);
    }
  }

  /** The pieces joined back with one END between neighbours. */
  function JoinEnd(ps: seq<seq<Byte>>): (r: seq<Byte>)
    requires |ps| >= 1
    decreases |ps|
  {
    if |ps| == 1 then ps[0] else ps[0] + [END] + JoinEnd(ps[1..])
  }

  /** All pieces but the first and the last are non-empty; the first is non-empty unless `s` starts with END. */
  lemma {:induction false} SplitEndRunsNonEmpty(s: seq<Byte>)
    ensures forall i :: 1 <= i < |SplitEndRuns(s)| - 1 ==> SplitEndRuns(s)[i] != []
    ensures s != [] && s[0] != END ==> SplitEndRuns(s)[0] != []
    decreases |s|
  {
    if s == [] {
    } else if s[0] == END {
      var u := LStripEnd(s);
      SplitEndRunsNonEmpty(u);
      if u == [] {
        assert SplitEndRuns(u) == [[]];
      }
    } else {
      SplitEndRunsNonEmpty(s[1..]);
    }
  }

  /** A string without END is a single piece, itself. */
  lemma {:induction false} SplitEndRunsEndFree(s: seq<Byte>)
    requires END !in s
    ensures SplitEndRuns(s) == [s]
    decreases |s|
  {
    if s != [] {
      assert END !in s[1..];
      SplitEndRunsEndFree(s[1..]);
      assert [s[0]] + s[1..] == s;
    }
  }

  /** A string that contains END splits into at least two pieces. */
  lemma {:induction false} SplitEndRunsSeveral(s: seq<Byte>)
    requires END in s
    ensures |SplitEndRuns(s)| >= 2
    decreases |s|
  {
    if s[0] != END {
      assert END in s[1..];
      SplitEndRunsSeveral(s[1..]);
    }
  }

  /** A string that ends with END has an empty last piece. */
  lemma {:induction false} SplitEndRunsTrailing(s: seq<Byte>)
    requires s != [] && s[|s| - 1] == END
    ensures SplitEndRuns(s)[|SplitEndRuns(s)| - 1] == []
    decreases |s|
  {
    if s[0] == END {
      var u := LStripEnd(s);
      var r := SplitEndRuns(u);
      assert SplitEndRuns(s) == [[]] + r;
      if u != [] {
        LStripEndRemovesEnds(s);
        assert u[|u| - 1] == s[|s| - 1];
        SplitEndRunsTrailing(u);
      }
      assert SplitEndRuns(s)[|SplitEndRuns(s)| - 1] == r[|r| - 1];
    } else {
      var t := s[1..];
      assert t[|t| - 1] == END;
      SplitEndRunsSeveral(t);
      SplitEndRunsTrailing(t);
      var rest := SplitEndRuns(t);
      assert s == [s[0]] + t;
      SplitEndRunsCons(s[0], t);
      assert SplitEndRuns(s) == [[s[0]] + rest[0]] + rest[1..];
      assert SplitEndRuns(s)[|SplitEndRuns(s)| - 1] == rest[|rest| - 1];
    }
  }

  /** What follows the complete pieces of `s` when `b` is appended to it. */
  function SplitRemainder(s: seq<Byte>, b: seq<Byte>): seq<Byte>
  {
    var r := SplitEndRuns(s);
    var last := r[|r| - 1];
    if last == [] && s != [] then LStripEnd(b) else last + b
  }

  /** Splitting a string that starts with a byte other than END. */
  lemma SplitEndRunsCons(c: Byte, t: seq<Byte>)
    requires c != END
    ensures SplitEndRuns([c] + t) == [[c] + SplitEndRuns(t)[0]] + SplitEndRuns(t)[1..]
  {
    assert ([c] + t)[1..] == t;
  }

  /**
    Splitting a concatenation: the complete pieces of `s` stay as they are, and
    the rest is what splitting the last piece of `s` followed by `b` gives.  When
    that last piece is empty because `s` ended in a run of END bytes, the run
    continues into the leading END bytes of `b`.
   */
  lemma {:induction false} SplitEndRunsAppend(s: seq<Byte>, b: seq<Byte>)
    ensures var r := SplitEndRuns(s);
            SplitEndRuns(s + b) == r[..|r| - 1] + SplitEndRuns(SplitRemainder(s, b))
    decreases |s|
  {
    if s == [] {
      assert s + b == b;
    } else if s[0] == END {
      SplitEndRunsAppendEnd(s, b);
    } else {
      SplitEndRunsAppendCons(s, b);
    }
  }

  lemma {:induction false} SplitEndRunsAppendEnd(s: seq<Byte>, b: seq<Byte>)
    requires s != [] && s[0] == END
    ensures var r := SplitEndRuns(s);
            SplitEndRuns(s + b) == r[..|r| - 1] + SplitEndRuns(SplitRemainder(s, b))
    decreases |s|, 0
  {
    var u := LStripEnd(s);
    LStripEndAppend(s, b);
    assert (s + b)[0] == END;
    assert SplitEndRuns(s + b) == [[]] + SplitEndRuns(LStripEnd(s + b));
    assert SplitEndRuns(s) == [[]] + SplitEndRuns(u);
    if u == [] {
      OnlyEnds(s, b);
    } else {
      SplitEndRunsAppend(u, b);
      AfterEnds(s, u, b);
    }
  }

  lemma OnlyEnds(s: seq<Byte>, b: seq<Byte>)
    requires s != [] && LStripEnd(s) == []
    requires LStripEnd(s + b) == LStripEnd(b)
    requires SplitEndRuns(s + b) == [[]] + SplitEndRuns(LStripEnd(s + b))
    requires SplitEndRuns(s) == [[]] + SplitEndRuns(LStripEnd(s))
    ensures var r := SplitEndRuns(s);
            SplitEndRuns(s + b) == r[..|r| - 1] + SplitEndRuns(SplitRemainder(s, b))
  {
    var r := SplitEndRuns(s);
    assert SplitEndRuns([]) == [[]];
    assert r == [[], []];
    assert r[..|r| - 1] == [[]];
    assert SplitRemainder(s, b) == LStripEnd(b);
  }

  /** Dropping the last element of a non-empty sequence commutes with putting an element in front. */
  lemma ConsDropLast<T>(e: T, r: seq<T>, ru: seq<T>, x: seq<T>)
    requires |ru| >= 1 && r == [e] + ru
    ensures r[..|r| - 1] + x == [e] + (ru[..|ru| - 1] + x)
  {
    assert r[..|r| - 1] == [e] + ru[..|ru| - 1];
  }

  lemma AfterEnds(s: seq<Byte>, u: seq<Byte>, b: seq<Byte>)
    requires u != [] && LStripEnd(s + b) == u + b
    requires SplitEndRuns(s + b) == [[]] + SplitEndRuns(LStripEnd(s + b))
    requires SplitEndRuns(s) == [[]] + SplitEndRuns(u)
    requires var ru := SplitEndRuns(u);
             SplitEndRuns(u + b) == ru[..|ru| - 1] + SplitEndRuns(SplitRemainder(u, b))
    requires s != []
    ensures var r := SplitEndRuns(s);
            SplitEndRuns(s + b) == r[..|r| - 1] + SplitEndRuns(SplitRemainder(s, b))
  {
    var r := SplitEndRuns(s);
    var ru := SplitEndRuns(u);
    assert r[|r| - 1] == ru[|ru| - 1];
    var rem := SplitRemainder(u, b);
    assert SplitRemainder(s, b) == rem;
    ConsDropLast([], r, ru, SplitEndRuns(rem));
  }

  lemma {:induction false} SplitEndRunsAppendCons(s: seq<Byte>, b: seq<Byte>)
    requires s != [] && s[0] != END
    ensures var r := SplitEndRuns(s);
            SplitEndRuns(s + b) == r[..|r| - 1] + SplitEndRuns(SplitRemainder(s, b))
    decreases |s|, 0
  {
    if END !in s {
      SplitEndRunsEndFree(s);
      assert SplitRemainder(s, b) == s + b;
      assert [] + SplitEndRuns(s + b) == SplitEndRuns(s + b);
    } else {
      var c, t := s[0], s[1..];
      assert s == [c] + t && s + b == [c] + (t + b);
      assert END in t;
      SplitEndRunsSeveral(t);
      SplitEndRunsCons(c, t);
      SplitEndRunsCons(c, t + b);
      SplitEndRunsAppend(t, b);
      var rt := SplitEndRuns(t);
      assert SplitEndRuns(s)[|SplitEndRuns(s)| - 1] == rt[|rt| - 1];
      assert SplitRemainder(s, b) == SplitRemainder(t, b);
      ConsPieces(c, rt, SplitEndRuns(t + b), SplitEndRuns(SplitRemainder(t, b)));
    }
  }

  /** Gluing a byte to the first of several pieces leaves the complete pieces after the first alone. */
  lemma ConsPieces(c: Byte, rt: seq<seq<Byte>>, rtb: seq<seq<Byte>>, x: seq<seq<Byte>>)
    requires |rt| >= 2 && rtb == rt[..|rt| - 1] + x
    ensures var r := [[c] + rt[0]] + rt[1..];
            [[c] + rtb[0]] + rtb[1..] == r[..|r| - 1] + x
  {
    var r := [[c] + rt[0]] + rt[1..];
    assert rtb[0] == rt[0];
    assert rtb[1..] == rt[1..|rt| - 1] + x;
    assert r[..|r| - 1] == [[c] + rt[0]] + rt[1..|rt| - 1];
  }

  /** Splitting inverts joining, for END-free pieces whose interior ones are non-empty. */
  lemma {:induction false} SplitJoinEnd(ps: seq<seq<Byte>>)
    requires |ps| >= 1
    requires forall i :: 0 <= i < |ps| ==> END !in ps[i]
    requires forall i :: 1 <= i < |ps| - 1 ==> ps[i] != []
    ensures SplitEndRuns(JoinEnd(ps)) == ps
    decreases |ps|
  {
    if |ps| == 1 {
      SplitEndRunsEndFree(ps[0]);
    } else {
      var j := JoinEnd(ps[1..]);
      SplitJoinEnd(ps[1..]);
      var s := ps[0] + [END];
      SplitEndRunsDelimited(ps[0]);
      SplitEndRunsAppend(s, j);
      assert JoinEnd(ps) == s + j;
      if |ps| > 2 {
        assert ps[1] != [];
        assert j[0] == ps[1][0];
      } else {
        assert j == ps[1];
      }
      assert LStripEnd(j) == j;
      assert ps == [ps[0]] + ps[1..];
    }
  }

  /** An END-free string followed by one END splits into itself and an empty piece. */
  lemma {:induction false} SplitEndRunsDelimited(p: seq<Byte>)
    requires END !in p
    ensures SplitEndRuns(p + [END]) == [p, []]
    decreases |p|
  {
    if p == [] {
      assert p + [END] == [END];
      assert LStripEnd([END]) == [];
    } else {
      assert (p + [END])[1..] == p[1..] + [END];
      SplitEndRunsDelimited(p[1..]);
      assert [p[0]] + p[1..] == p;
    }
  }
}
