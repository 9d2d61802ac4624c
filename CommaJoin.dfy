/** The flattening of a list-valued property into one translation value:
    the value fragments joined with a comma, as Guava's `Joiner.on(",")` does.
    `Split` is its partial inverse; the lemmas say exactly when it is one. */
module CommaJoin {

  /** The fragments joined with ',' between neighbours; no fragments give "". */
  function Join(xs: seq<string>): (r: string)
    ensures |xs| == 1 ==> r == xs[0]
    ensures |xs| > 1 ==> ',' in r
  {
    if |xs| == 0 then ""
    else if |xs| == 1 then xs[0]
    else
      var r := xs[0] + "," + Join(xs[1..]);
      assert r[|xs[0]|] == ',';
      r
  }

  /** Splits a string at every ',' into its comma-free pieces; always at least one piece. */
  function Split(s: string): (r: seq<string>)
    ensures |r| >= 1
    ensures forall i :: 0 <= i < |r| ==> ',' !in r[i]
  {
    if |s| == 0 then [""]
    else if s[0] == ',' then [""] + Split(s[1..])
    else
      var rest := Split(s[1..]);
      [[s[0]] + rest[0]] + rest[1..]
  }

  /** Appending one fragment extends the joined value by a comma and that fragment. */
  lemma {:induction false} JoinSnoc(xs: seq<string>, x: string)
    requires |xs| > 0
    ensures Join(xs + [x]) == Join(xs) + "," + x
  {
    if |xs| == 1 {
      assert xs + [x] == [xs[0], x];
      assert [xs[0], x][1..] == [x];
    } else {
      assert (xs + [x])[1..] == xs[1..] + [x];
      JoinSnoc(xs[1..], x);
    }
  }

  /** Joining two non-empty lists is joining each and putting a comma between. */
  lemma {:induction false} JoinAppend(xs: seq<string>, ys: seq<string>)
    requires |xs| > 0 && |ys| > 0
    ensures Join(xs + ys) == Join(xs) + "," + Join(ys)
  {
    if |ys| == 1 {
      assert ys == [ys[0]];
      JoinSnoc(xs, ys[0]);
    } else {
      var init := ys[..|ys| - 1];
      var last := ys[|ys| - 1];
      assert ys == init + [last];
      assert xs + ys == (xs + init) + [last];
      JoinAppend(xs, init);
      JoinSnoc(xs + init, last);
      JoinSnoc(init, last);
    }
  }

  /** A comma-free string is one piece. */
  lemma {:induction false} SplitCommaFree(a: string)
    requires ',' !in a
    ensures Split(a) == [a]
  {
    if |a| > 0 {
      assert ',' !in a[1..] by {
        forall i | 0 <= i < |a[1..]| ensures a[1..][i] != ',' { assert a[1..][i] == a[i + 1]; }
      }
      SplitCommaFree(a[1..]);
      assert [a[0]] + a[1..] == a;
    }
  }

  /** A comma-free head followed by ',' is split off as the first piece. */
  lemma {:induction false} SplitAfterPiece(a: string, b: string)
    requires ',' !in a
    ensures Split(a + "," + b) == [a] + Split(b)
  {
    if |a| == 0 {
      assert a + "," + b == [','] + b;
      assert ([','] + b)[1..] == b;
    } else {
      var s := a + "," + b;
      assert s[0] == a[0] && s[0] != ',';
      assert s[1..] == a[1..] + "," + b;
      assert ',' !in a[1..] by {
        forall i | 0 <= i < |a[1..]| ensures a[1..][i] != ',' { assert a[1..][i] == a[i + 1]; }
      }
      SplitAfterPiece(a[1..], b);
      assert [a[0]] + a[1..] == a;
    }
  }

  /** Round trip: splitting the joined value gives back the fragments, provided
      there is at least one fragment and none of them contains a comma. */
  lemma {:induction false} SplitJoin(xs: seq<string>)
    requires |xs| > 0
    requires forall i :: 0 <= i < |xs| ==> ',' !in xs[i]
    ensures Split(Join(xs)) == xs
  {
    if |xs| == 1 {
      SplitCommaFree(xs[0]);
    } else {
      SplitAfterPiece(xs[0], Join(xs[1..]));
      SplitJoin(xs[1..]);
      assert [xs[0]] + xs[1..] == xs;
    }
  }

  /** The flattening is lossy: a single fragment containing a comma and the list of
      its pieces give the same value, and so do no fragments and one empty fragment. */
  lemma JoinIsLossy()
    ensures Join(["de,en"]) == Join(["de", "en"])
    ensures Join([]) == Join([""])
  {
    assert ["de", "en"][1..] == ["en"];
  }
}
