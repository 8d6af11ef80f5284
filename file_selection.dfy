/** `get_files` and the pre-COVID selection: which of the names in the
    data directory are merged. The directory listing is a parameter. */
module FileSelection {

  /** The year prefixes of the 2013-2016 export layout ... */
  const OldYears: seq<string> := ["2013", "2014", "2015", "2016"]
  /** ... of the 2017-2021 layout ... */
  const NewYears: seq<string> := ["2017", "2018", "2019", "2020", "2021"]
  /** ... the years the pre-COVID selection drops ... */
  const CovidYears: seq<string> := ["2020", "2021"]
  /** ... and the new-layout years it keeps. */
  const PreCovidNewYears: seq<string> := ["2017", "2018", "2019"]

  /** Python's `str.startswith` with one prefix. */
  predicate StartsWith(s: string, prefix: string) {
    |prefix| <= |s| && s[..|prefix|] == prefix
  }

  /** Python's `str.startswith` with a tuple of prefixes. */
  predicate StartsWithAny(s: string, prefixes: seq<string>) {
    exists i :: 0 <= i < |prefixes| && StartsWith(s, prefixes[i])
  }

  /** The names of `names` that start with one of `prefixes`, in order. */
  function WithPrefix(names: seq<string>, prefixes: seq<string>): seq<string> {
    if names == [] then []
    else
      var init := WithPrefix(names[..|names| - 1], prefixes);
      var last := names[|names| - 1];
      if StartsWithAny(last, prefixes) then init + [last] else init
  }

  /** The names of `names` that start with none of `prefixes`, in order. */
  function WithoutPrefix(names: seq<string>, prefixes: seq<string>): seq<string> {
    if names == [] then []
    else
      var init := WithoutPrefix(names[..|names| - 1], prefixes);
      var last := names[|names| - 1];
      if StartsWithAny(last, prefixes) then init else init + [last]
  }

  /** A name is kept exactly when it is listed and has one of the prefixes. */
  lemma {:induction false} WithPrefixMembers(names: seq<string>, prefixes: seq<string>)
    ensures forall x :: x in WithPrefix(names, prefixes) <==> x in names && StartsWithAny(x, prefixes)
  {
    if names != [] {
      var init := names[..|names| - 1];
      WithPrefixMembers(init, prefixes);
      assert names == init + [names[|names| - 1]];
    }
  }

  /** A name is kept exactly when it is listed and has none of the prefixes. */
  lemma {:induction false} WithoutPrefixMembers(names: seq<string>, prefixes: seq<string>)
    ensures forall x :: x in WithoutPrefix(names, prefixes) <==> x in names && !StartsWithAny(x, prefixes)
  {
    if names != [] {
      var init := names[..|names| - 1];
      WithoutPrefixMembers(init, prefixes);
      assert names == init + [names[|names| - 1]];
    }
  }

  /** Filtering keeps listing order: filtering a concatenation concatenates
      the filtered parts. */
  lemma {:induction false} WithPrefixAppend(a: seq<string>, b: seq<string>, prefixes: seq<string>)
    ensures WithPrefix(a + b, prefixes) == WithPrefix(a, prefixes) + WithPrefix(b, prefixes)
  {
    if b == [] {
      assert a + b == a;
    } else {
      var b' := b[..|b| - 1];
      assert (a + b)[..|a + b| - 1] == a + b';
      WithPrefixAppend(a, b', prefixes);
    }
  }

  lemma {:induction false} WithoutPrefixAppend(a: seq<string>, b: seq<string>, prefixes: seq<string>)
    ensures WithoutPrefix(a + b, prefixes) == WithoutPrefix(a, prefixes) + WithoutPrefix(b, prefixes)
  {
    if b == [] {
      assert a + b == a;
    } else {
      var b' := b[..|b| - 1];
      assert (a + b)[..|a + b| - 1] == a + b';
      WithoutPrefixAppend(a, b', prefixes);
    }
  }

  /** For four-character prefixes, `startswith` with a tuple is a look-up
      of the name's first four characters. */
  lemma YearPrefix(x: string, prefixes: seq<string>)
    requires forall i :: 0 <= i < |prefixes| ==> |prefixes[i]| == 4
    ensures StartsWithAny(x, prefixes) <==> |x| >= 4 && x[..4] in prefixes
  {
    if |x| >= 4 && x[..4] in prefixes {
      var i :| 0 <= i < |prefixes| && prefixes[i] == x[..4];
      assert StartsWith(x, prefixes[i]);
    }
  }

  /** No name starts with both an old-layout and a new-layout year. */
  lemma OldNewExclusive(x: string)
    ensures !(StartsWithAny(x, OldYears) && StartsWithAny(x, NewYears))
  {
  }

  /** `get_files`: one pass over the directory listing, appending each name
      that starts with 2013-2016 to `old_files`, else each that starts with
      2017-2021 to `new_files`. */
  method GetFiles(listing: seq<string>) returns (oldFiles: seq<string>, newFiles: seq<string>)
    ensures oldFiles == WithPrefix(listing, OldYears)
    ensures newFiles == WithPrefix(listing, NewYears)
  {
    oldFiles, newFiles := [], [];
    for i := 0 to |listing|
      invariant oldFiles == WithPrefix(listing[..i], OldYears)
      invariant newFiles == WithPrefix(listing[..i], NewYears)
    {
      var file := listing[i];
      assert listing[..i + 1][..i] == listing[..i];
      if StartsWithAny(file, OldYears) {
        OldNewExclusive(file);
        oldFiles := oldFiles + [file];
      } else if StartsWithAny(file, NewYears) {
        newFiles := newFiles + [file];
      }
    }
    assert listing[..|listing|] == listing;
  }

  /** What `get_files` returns: the old-layout names and the new-layout
      names, each in listing order, sharing no name; a name with neither
      kind of prefix is in neither list. */
  lemma GetFilesClassifies(listing: seq<string>)
    ensures forall x :: x in WithPrefix(listing, OldYears) <==> x in listing && StartsWithAny(x, OldYears)
    ensures forall x :: x in WithPrefix(listing, NewYears) <==> x in listing && StartsWithAny(x, NewYears)
    ensures forall x :: !(x in WithPrefix(listing, OldYears) && x in WithPrefix(listing, NewYears))
  {
    WithPrefixMembers(listing, OldYears);
    WithPrefixMembers(listing, NewYears);
    forall x ensures !(x in WithPrefix(listing, OldYears) && x in WithPrefix(listing, NewYears)) {
      OldNewExclusive(x);
    }
  }

  /** The module-level loop over `old_files + new_files` that keeps the
      names starting with neither '2020' nor '2021'. */
  method PreCovidFiles(oldFiles: seq<string>, newFiles: seq<string>) returns (preCovid: seq<string>)
    ensures preCovid == WithoutPrefix(oldFiles + newFiles, CovidYears)
  {
    var files := oldFiles + newFiles;
    preCovid := [];
    for i := 0 to |files|
      invariant preCovid == WithoutPrefix(files[..i], CovidYears)
    {
      var file := files[i];
      assert files[..i + 1][..i] == files[..i];
      assert StartsWithAny(file, CovidYears) <==> StartsWith(file, "2020") || StartsWith(file, "2021") by {
        if StartsWith(file, "2020") { assert StartsWith(file, CovidYears[0]); }
        if StartsWith(file, "2021") { assert StartsWith(file, CovidYears[1]); }
      }
      if !StartsWith(file, "2020") && !StartsWith(file, "2021") {
        preCovid := preCovid + [file];
      }
    }
    assert files[..|files|] == files;
  }

  lemma {:induction false} OldFilesArePreCovid(listing: seq<string>)
    ensures WithoutPrefix(WithPrefix(listing, OldYears), CovidYears) == WithPrefix(listing, OldYears)
  {
    if listing != [] {
      var init := listing[..|listing| - 1];
      var last := listing[|listing| - 1];
      OldFilesArePreCovid(init);
      if StartsWithAny(last, OldYears) {
        WithoutPrefixAppend(WithPrefix(init, OldYears), [last], CovidYears);
        assert [last][..0] == [];
      }
    }
  }

  lemma {:induction false} NewFilesPreCovid(listing: seq<string>)
    ensures WithoutPrefix(WithPrefix(listing, NewYears), CovidYears) == WithPrefix(listing, PreCovidNewYears)
  {
    if listing != [] {
      var init := listing[..|listing| - 1];
      var last := listing[|listing| - 1];
      NewFilesPreCovid(init);
      YearPrefix(last, NewYears);
      YearPrefix(last, CovidYears);
      YearPrefix(last, PreCovidNewYears);
      if StartsWithAny(last, NewYears) {
        WithoutPrefixAppend(WithPrefix(init, NewYears), [last], CovidYears);
        assert [last][..0] == [];
      }
    }
  }

  /** The pre-COVID list built from `get_files`' result: every 2013-2016
      name in listing order, then every 2017-2019 name in listing order,
      and nothing else. */
  lemma PreCovidSelection(listing: seq<string>)
    ensures WithoutPrefix(WithPrefix(listing, OldYears) + WithPrefix(listing, NewYears), CovidYears) ==
      WithPrefix(listing, OldYears) + WithPrefix(listing, PreCovidNewYears)
  {
    WithoutPrefixAppend(WithPrefix(listing, OldYears), WithPrefix(listing, NewYears), CovidYears);
    OldFilesArePreCovid(listing);
    NewFilesPreCovid(listing);
  }
}
