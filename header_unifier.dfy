/** First pass of `all_merge`: read every input header and collect the
    output column list `fieldnames`. */
module HeaderUnifier {
  import opened ColumnNames

  /** The lists of `lists` joined in order: all header names of all
      files, or all rows of all files, file after file. */
  function Flatten<T>(lists: seq<seq<T>>): seq<T>
  {
    if lists == [] then [] else Flatten(lists[..|lists| - 1]) + lists[|lists| - 1]
  }

  /** `fieldnames` after one more header name `h`: its translation is
      appended unless it is already there. */
  function AddName(fields: seq<string>, h: string): seq<string> {
    if Translate(h) in fields then fields else fields + [Translate(h)]
  }

  /** `fieldnames` after reading the header names `raws` in order. */
  function Unified(raws: seq<string>): seq<string>
  {
    if raws == [] then [] else AddName(Unified(raws[..|raws| - 1]), raws[|raws| - 1])
  }

  /** The translations of `raws`, position by position. */
  function Translated(raws: seq<string>): seq<string>
  {
    seq(|raws|, i requires 0 <= i < |raws| => Translate(raws[i]))
  }

  /** No name occurs twice in `s`. */
  predicate NoDuplicates(s: seq<string>) {
    forall i, j :: 0 <= i < j < |s| ==> s[i] != s[j]
  }

  /** Position of the first occurrence of `x` in `s`. */
  function FirstIndex(s: seq<string>, x: string): (k: nat)
    requires x in s
    ensures k < |s| && s[k] == x && x !in s[..k]
  {
    if s[0] == x then 0 else 1 + FirstIndex(s[1..], x)
  }

  /** The header loop of `all_merge`: for every file, for every name of its
      header, append the translated name to `fieldnames` when it is new. */
  method UnifyHeaders(headers: seq<seq<string>>) returns (fieldnames: seq<string>)
    ensures fieldnames == Unified(Flatten(headers))
  {
    fieldnames := [];
    var f := 0;
    while f < |headers|
      invariant 0 <= f <= |headers|
      invariant fieldnames == Unified(Flatten(headers[..f]))
    {
      var row := headers[f];
      ghost var before := Flatten(headers[..f]);
      var i := 0;
      assert before + row[..0] == before;
      while i < |row|
        invariant 0 <= i <= |row|
        invariant fieldnames == Unified(before + row[..i])
      {
        var h := row[i];
        SliceStep(before, row, i);
        UnifiedSnoc(before + row[..i], h);
        ghost var previous := fieldnames;
        if h !in ColTrans {
          assert Translate(h) == h;
          if h !in fieldnames {
            fieldnames := fieldnames + [h];
          }
        } else {
          assert Translate(h) == ColTrans[h];
          if ColTrans[h] !in fieldnames {
            fieldnames := fieldnames + [ColTrans[h]];
          }
        }
        assert fieldnames == AddName(previous, h);
        i := i + 1;
      }
      assert headers[..f + 1][..f] == headers[..f];
      assert row[..i] == row;
      f := f + 1;
    }
    assert headers[..f] == headers;
  }

  /** One more header name is one more `AddName`. */
  lemma UnifiedSnoc(raws: seq<string>, h: string)
    ensures Unified(raws + [h]) == AddName(Unified(raws), h)
  {
    assert (raws + [h])[..|raws|] == raws;
  }

  lemma TakeDrop<T>(s: seq<T>, k: nat)
    requires k <= |s|
    ensures s[..k] + s[k..] == s
  {
  }

  /** Sequence bookkeeping for a loop that has handled `s[..i]`. */
  lemma SliceStep<T>(d: seq<T>, s: seq<T>, i: nat)
    requires i < |s|
    ensures d + s[..i + 1] == (d + s[..i]) + [s[i]]
    ensures (d + s[..i + 1]) + s[i + 1..] == d + s
  {
    assert s[..i + 1] == s[..i] + [s[i]];
    assert s[..i + 1] + s[i + 1..] == s;
  }

  /** `fieldnames` never holds a name twice. */
  lemma {:induction false} UnifiedNoDuplicates(raws: seq<string>)
    ensures NoDuplicates(Unified(raws))
  {
    if raws != [] {
      UnifiedNoDuplicates(raws[..|raws| - 1]);
    }
  }

  /** Completeness and soundness: a name is in `fieldnames` exactly when it
      is the translation of some header name read, and no raw name of
      `col_trans` ever is. */
  lemma {:induction false} UnifiedMembers(raws: seq<string>)
    ensures forall c :: c in Unified(raws) <==> c in Translated(raws)
    ensures forall c :: c in Unified(raws) ==> c !in ColTrans
  {
    if raws != [] {
      var init := raws[..|raws| - 1];
      UnifiedMembers(init);
      assert Translated(raws) == Translated(init) + [Translate(raws[|raws| - 1])];
    }
  }

  /** Reading more headers only extends `fieldnames`: the names from the
      first files stay in front, in place, and every later name is new. */
  lemma {:induction false} UnifiedExtends(a: seq<string>, b: seq<string>)
    ensures |Unified(a)| <= |Unified(a + b)|
    ensures Unified(a + b)[..|Unified(a)|] == Unified(a)
    ensures forall k :: |Unified(a)| <= k < |Unified(a + b)| ==> Unified(a + b)[k] !in Unified(a)
  {
    if b != [] {
      var b' := b[..|b| - 1];
      assert (a + b)[..|a + b| - 1] == a + b';
      UnifiedExtends(a, b');
    } else {
      assert a + b == a;
    }
  }

  /** Names of `u` stand in the order of their first appearance in `t`. */
  predicate InFirstSeenOrder(u: seq<string>, t: seq<string>) {
    forall i, j :: 0 <= i < j < |u| ==>
      u[i] in t && u[j] in t && FirstIndex(t, u[i]) < FirstIndex(t, u[j])
  }

  /** `s` without repeats, each name kept where it first occurs. */
  function Dedup(s: seq<string>): seq<string>
  {
    if s == [] then []
    else
      var d := Dedup(s[..|s| - 1]);
      if s[|s| - 1] in d then d else d + [s[|s| - 1]]
  }

  /** The header loop de-duplicates the translated header names. */
  lemma {:induction false} UnifiedIsDedup(raws: seq<string>)
    ensures Unified(raws) == Dedup(Translated(raws))
  {
    if raws != [] {
      var init := raws[..|raws| - 1];
      UnifiedIsDedup(init);
      assert Translated(raws)[..|raws| - 1] == Translated(init);
    }
  }

  /** A name is kept by `Dedup` iff it occurs. */
  lemma {:induction false} DedupMembers(s: seq<string>)
    ensures forall c :: c in Dedup(s) <==> c in s
  {
    if s != [] {
      DedupMembers(s[..|s| - 1]);
      assert s == s[..|s| - 1] + [s[|s| - 1]];
    }
  }

  /** `Dedup` keeps names in the order of their first occurrence. */
  lemma {:induction false} DedupFirstSeenOrder(s: seq<string>)
    ensures InFirstSeenOrder(Dedup(s), s)
  {
    if s != [] {
      var s0, c := s[..|s| - 1], s[|s| - 1];
      var u, u0 := Dedup(s), Dedup(s0);
      assert s == s0 + [c];
      DedupFirstSeenOrder(s0);
      DedupMembers(s0);
      forall i | 0 <= i < |u0|
        ensures u[i] in s && FirstIndex(s, u[i]) == FirstIndex(s0, u0[i]) < |s0|
      {
        assert u0[i] in s0;
        FirstIndexAppend(s0, c, u0[i]);
      }
      if c !in u0 {
        assert c !in s0;
        assert FirstIndex(s, c) == |s0|;
      }
    }
  }

  /** First-seen order: a name stands before another in `fieldnames` exactly
      when its first appearance among the translated header names is earlier. */
  lemma UnifiedFirstSeenOrder(raws: seq<string>)
    ensures InFirstSeenOrder(Unified(raws), Translated(raws))
  {
    UnifiedIsDedup(raws);
    DedupFirstSeenOrder(Translated(raws));
  }

  lemma {:induction false} FirstIndexAppend(s: seq<string>, y: string, x: string)
    requires x in s
    ensures FirstIndex(s + [y], x) == FirstIndex(s, x)
  {
    if s[0] != x {
      assert (s + [y])[1..] == s[1..] + [y];
      FirstIndexAppend(s[1..], y, x);
    }
  }

  /** Every header name of every file is represented in `fieldnames` by its
      translation, and every entry of `fieldnames` translates some header
      name of some file. */
  lemma HeaderCoverage(headers: seq<seq<string>>)
    ensures forall f, i :: 0 <= f < |headers| && 0 <= i < |headers[f]| ==>
      Translate(headers[f][i]) in Unified(Flatten(headers))
    ensures forall c :: c in Unified(Flatten(headers)) ==>
      exists f, i :: 0 <= f < |headers| && 0 <= i < |headers[f]| && Translate(headers[f][i]) == c
  {
    var raws := Flatten(headers);
    UnifiedMembers(raws);
    FlattenMembers(headers);
    forall f, i | 0 <= f < |headers| && 0 <= i < |headers[f]|
      ensures Translate(headers[f][i]) in Unified(raws)
    {
      assert headers[f][i] in raws;
      var k :| 0 <= k < |raws| && raws[k] == headers[f][i];
      assert Translated(raws)[k] == Translate(headers[f][i]);
    }
    forall c | c in Unified(raws)
      ensures exists f, i :: 0 <= f < |headers| && 0 <= i < |headers[f]| && Translate(headers[f][i]) == c
    {
      var k :| 0 <= k < |raws| && Translated(raws)[k] == c;
      assert raws[k] in raws;
    }
  }

  /** The flattened list holds exactly the elements of the lists. */
  lemma {:induction false} FlattenMembers<T>(lists: seq<seq<T>>)
    ensures forall f, i :: 0 <= f < |lists| && 0 <= i < |lists[f]| ==> lists[f][i] in Flatten(lists)
    ensures forall h :: h in Flatten(lists) ==>
      exists f, i :: 0 <= f < |lists| && 0 <= i < |lists[f]| && lists[f][i] == h
  {
    if lists != [] {
      var init := lists[..|lists| - 1];
      var last := lists[|lists| - 1];
      FlattenMembers(init);
      assert Flatten(lists) == Flatten(init) + last;
      forall f, i | 0 <= f < |lists| && 0 <= i < |lists[f]|
        ensures lists[f][i] in Flatten(lists)
      {
        if f < |init| {
          assert init[f] == lists[f];
          assert init[f][i] in Flatten(init);
        }
      }
      forall h | h in Flatten(lists)
        ensures exists f, i :: 0 <= f < |lists| && 0 <= i < |lists[f]| && lists[f][i] == h
      {
        if h in Flatten(init) {
          var f, i :| 0 <= f < |init| && 0 <= i < |init[f]| && init[f][i] == h;
          assert lists[f][i] == h;
        } else {
          var i :| 0 <= i < |last| && last[i] == h;
          assert lists[|lists| - 1][i] == h;
        }
      }
    }
  }

  /** Unifying the headers of files A then B starts with the result for A
      alone and adds only names A did not produce. */
  lemma UnifyFilesExtends(a: seq<seq<string>>, b: seq<seq<string>>)
    ensures |Unified(Flatten(a))| <= |Unified(Flatten(a + b))|
    ensures Unified(Flatten(a + b))[..|Unified(Flatten(a))|] == Unified(Flatten(a))
    ensures forall k :: |Unified(Flatten(a))| <= k < |Unified(Flatten(a + b))| ==>
      Unified(Flatten(a + b))[k] !in Unified(Flatten(a))
  {
    FlattenAppend(a, b);
    UnifiedExtends(Flatten(a), Flatten(b));
  }

  lemma {:induction false} FlattenAppend<T>(a: seq<seq<T>>, b: seq<seq<T>>)
    ensures Flatten(a + b) == Flatten(a) + Flatten(b)
  {
    if b == [] {
      assert a + b == a;
    } else {
      var b' := b[..|b| - 1];
      assert (a + b)[..|a + b| - 1] == a + b';
      FlattenAppend(a, b');
    }
  }
}
