/** The extraction half of the browser reader's `handleFileChange`: which archive entries
    become pages, the records the push loop builds, and the in-place sort by name. */
module CbzExtraction {
  import opened Archive
  import opened Extensions
  import opened ObjectUrls

  /** One page: the entry's name, its bytes and the object URL that shows them. */
  datatype ExtractedFile = ExtractedFile(name: string, content: Bytes, url: Url)

  /** The loop's test: not a directory, and the name passes the browser's image regex. */
  predicate Kept(e: Entry) {
    !e.isDirectory && IsBrowserImageName(e.name)
  }

  /** The entries the loop keeps, in archive order. */
  function ImageEntries(es: seq<Entry>): (r: seq<Entry>)
    ensures |r| <= |es|
  {
    if es == [] then []
    else (if Kept(es[0]) then [es[0]] else []) + ImageEntries(es[1..])
  }

  /** What the push loop has produced when it stops: the records for the kept entries it
      materialised, and whether it reached the end (`false`: reading some kept entry failed
      and the loop threw). The i-th record gets URL `base + i`, `base` being the registry's
      next URL when the loop starts. */
  datatype Collected = Collected(files: seq<ExtractedFile>, complete: bool)

  function Collect(es: seq<Entry>, base: Url): Collected
  {
    if es == [] then Collected([], true)
    else if !Kept(es[0]) then Collect(es[1..], base)
    else match es[0].content
      case None => Collected([], false)
      case Some(blob) =>
        var rest := Collect(es[1..], base + 1);
        Collected([ExtractedFile(es[0].name, blob, base)] + rest.files, rest.complete)
  }

  /** `files` pushed before what the rest of the loop produces. */
  function Prepend(files: seq<ExtractedFile>, c: Collected): Collected {
    Collected(files + c.files, c.complete)
  }

  /** A step of the loop that passes over entry `i` without pushing. */
  lemma CollectSkipStep(es: seq<Entry>, i: nat, base: Url, files: seq<ExtractedFile>)
    requires i < |es| && !Kept(es[i])
    requires Collect(es, base) == Prepend(files, Collect(es[i..], base + |files|))
    ensures Collect(es, base) == Prepend(files, Collect(es[i + 1..], base + |files|))
  {
    assert es[i..][1..] == es[i + 1..];
  }

  /** A step of the loop that reads entry `i` and pushes its record. */
  lemma CollectPushStep(es: seq<Entry>, i: nat, base: Url, files: seq<ExtractedFile>, file: ExtractedFile)
    requires i < |es| && Kept(es[i]) && es[i].content.Some?
    requires file == ExtractedFile(es[i].name, es[i].content.value, base + |files|)
    requires Collect(es, base) == Prepend(files, Collect(es[i..], base + |files|))
    ensures Collect(es, base) == Prepend(files + [file], Collect(es[i + 1..], base + |files + [file]|))
  {
    assert es[i..][1..] == es[i + 1..];
    var rest := Collect(es[i + 1..], base + |files| + 1);
    assert Collect(es[i..], base + |files|) == Collected([file] + rest.files, rest.complete);
    assert files + ([file] + rest.files) == (files + [file]) + rest.files;
  }

  /** The step of the loop where reading entry `i` fails. */
  lemma CollectFailStep(es: seq<Entry>, i: nat, base: Url, files: seq<ExtractedFile>)
    requires i < |es| && Kept(es[i]) && es[i].content.None?
    requires Collect(es, base) == Prepend(files, Collect(es[i..], base + |files|))
    ensures Collect(es, base) == Collected(files, false)
  {
    assert files + [] == files;
  }

  function UrlsOf(files: seq<ExtractedFile>): (r: seq<Url>)
    ensures |r| == |files|
    ensures forall k :: 0 <= k < |files| ==> r[k] == files[k].url
  {
    seq(|files|, k requires 0 <= k < |files| => files[k].url)
  }

  function UrlSet(files: seq<ExtractedFile>): set<Url> {
    set k | 0 <= k < |files| :: files[k].url
  }

  /** The URL-to-blob entries that creating a URL for each record, in order, adds. */
  function Registered(files: seq<ExtractedFile>): map<Url, Bytes>
    decreases |files|
  {
    if files == [] then map[]
    else
      var last := files[|files| - 1];
      Registered(files[..|files| - 1])[last.url := last.content]
  }

  /** Pushing a record registers its URL on top of the earlier ones. */
  lemma RegisteredPush(live: map<Url, Bytes>, files: seq<ExtractedFile>, file: ExtractedFile)
    ensures (live + Registered(files))[file.url := file.content] == live + Registered(files + [file])
  {
    assert (files + [file])[..|files|] == files;
  }

  /** The URLs registered are exactly the records' URLs. */
  lemma {:induction false} RegisteredKeys(files: seq<ExtractedFile>)
    ensures Registered(files).Keys == UrlSet(files)
    decreases |files|
  {
    if files != [] {
      var init := files[..|files| - 1];
      RegisteredKeys(init);
      assert UrlSet(files) == UrlSet(init) + {files[|files| - 1].url} by {
        assert forall k :: 0 <= k < |init| ==> init[k] == files[k];
      }
    }
  }

  /** With distinct URLs, every record's URL is registered with its own bytes. */
  lemma {:induction false} RegisteredShowsEachRecord(files: seq<ExtractedFile>)
    requires DistinctUrls(files)
    ensures Registered(files).Keys == UrlSet(files)
    ensures forall k :: 0 <= k < |files| ==> Registered(files)[files[k].url] == files[k].content
    decreases |files|
  {
    RegisteredKeys(files);
    if files != [] {
      var init := files[..|files| - 1];
      var last := files[|files| - 1];
      RegisteredShowsEachRecord(init);
      forall k | 0 <= k < |files|
        ensures Registered(files)[files[k].url] == files[k].content
      {
        if k < |init| {
          assert init[k] == files[k];
          assert files[k].url != last.url;
        }
      }
    }
  }

  predicate DistinctUrls(files: seq<ExtractedFile>) {
    forall i, j :: 0 <= i < j < |files| ==> files[i].url != files[j].url
  }

  predicate NoDuplicates<T(==)>(s: seq<T>) {
    forall i, j :: 0 <= i < j < |s| ==> s[i] != s[j]
  }

  // ---------------------------------------------------------------------------------------
  // What the loop keeps

  /** The filter keeps exactly the non-directory entries with an image name, and as many
      copies of each as the archive has. */
  lemma {:induction false} ImageEntriesAreTheKeptEntries(es: seq<Entry>)
    ensures forall e :: e in ImageEntries(es) <==> e in es && Kept(e)
    ensures forall e :: multiset(ImageEntries(es))[e] == if Kept(e) then multiset(es)[e] else 0
  {
    if es != [] {
      ImageEntriesAreTheKeptEntries(es[1..]);
      assert es == [es[0]] + es[1..];
    }
  }

  /** Every kept entry can be read. */
  predicate AllReadable(images: seq<Entry>) {
    forall k :: 0 <= k < |images| ==> images[k].content.Some?
  }

  /** The i-th record carries the i-th kept entry's name and bytes and URL `base + i`. */
  lemma {:induction false} CollectRecordsFollowImageEntries(es: seq<Entry>, base: Url)
    ensures var c := Collect(es, base); var images := ImageEntries(es);
      && |c.files| <= |images|
      && (forall k :: 0 <= k < |c.files| ==>
            && c.files[k].name == images[k].name
            && images[k].content == Some(c.files[k].content)
            && c.files[k].url == base + k)
  {
    if es != [] {
      if !Kept(es[0]) {
        CollectRecordsFollowImageEntries(es[1..], base);
        assert ImageEntries(es) == ImageEntries(es[1..]);
      } else if es[0].content.Some? {
        CollectRecordsFollowImageEntries(es[1..], base + 1);
        assert ImageEntries(es) == [es[0]] + ImageEntries(es[1..]);
      }
    }
  }

  /** The loop completes exactly when every kept entry can be read, and then there is one
      record per kept entry; otherwise it stops at the first kept entry that cannot be read. */
  lemma {:induction false} CollectCompletesIffReadable(es: seq<Entry>, base: Url)
    ensures var c := Collect(es, base); var images := ImageEntries(es);
      && (c.complete <==> AllReadable(images))
      && (c.complete ==> |c.files| == |images|)
      && (!c.complete ==> |c.files| < |images| && images[|c.files|].content.None?)
  {
    if es != [] {
      if !Kept(es[0]) {
        CollectCompletesIffReadable(es[1..], base);
        assert ImageEntries(es) == ImageEntries(es[1..]);
      } else {
        var images, rest := ImageEntries(es), ImageEntries(es[1..]);
        assert images == [es[0]] + rest;
        if es[0].content.Some? {
          CollectCompletesIffReadable(es[1..], base + 1);
          assert AllReadable(images) <==> AllReadable(rest) by {
            assert images[0].content.Some?;
            assert forall k :: 0 < k < |images| ==> images[k] == rest[k - 1];
            assert forall k :: 0 <= k < |rest| ==> rest[k] == images[k + 1];
          }
        } else {
          assert !AllReadable(images) by {
            assert images[0].content.None?;
          }
        }
      }
    }
  }

  /** Each record got its own new URL. */
  lemma CollectUrlsAreFresh(es: seq<Entry>, base: Url)
    ensures var files := Collect(es, base).files;
      && DistinctUrls(files)
      && (forall k :: 0 <= k < |files| ==> base <= files[k].url < base + |files|)
  {
    CollectRecordsFollowImageEntries(es, base);
  }

  /** No record comes from a directory or from a name that is not an image name. */
  lemma CollectKeepsOnlyImages(es: seq<Entry>, base: Url)
    ensures forall f :: f in Collect(es, base).files ==>
      exists e :: e in es && !e.isDirectory && IsBrowserImageName(e.name) && e.name == f.name && e.content == Some(f.content)
  {
    var c := Collect(es, base);
    CollectRecordsFollowImageEntries(es, base);
    ImageEntriesAreTheKeptEntries(es);
    forall f | f in c.files
      ensures exists e :: e in es && !e.isDirectory && IsBrowserImageName(e.name) && e.name == f.name && e.content == Some(f.content)
    {
      var k :| 0 <= k < |c.files| && c.files[k] == f;
      assert ImageEntries(es)[k] in ImageEntries(es);
    }
  }

  // ---------------------------------------------------------------------------------------
  // Sorting by name

  /** `localeCompare` is abstracted as a total preorder on names: `leq(a, b)` stands for
      `a.localeCompare(b) <= 0`. */
  ghost predicate TotalPreorder(leq: (string, string) -> bool) {
    && (forall a, b :: leq(a, b) || leq(b, a))
    && (forall a, b, c :: leq(a, b) && leq(b, c) ==> leq(a, c))
  }

  ghost predicate SortedByName(s: seq<ExtractedFile>, leq: (string, string) -> bool) {
    forall i, j :: 0 <= i < j < |s| ==> leq(s[i].name, s[j].name)
  }

  /** The first `n` records are in order. */
  ghost predicate SortedPrefix(s: seq<ExtractedFile>, n: nat, leq: (string, string) -> bool)
    requires n <= |s|
  {
    forall p, q :: 0 <= p < q < n ==> leq(s[p].name, s[q].name)
  }

  /** The records of `s` whose names compare equal to `n`, in their order in `s`. */
  function NamedLike(s: seq<ExtractedFile>, n: string, leq: (string, string) -> bool): seq<ExtractedFile>
    decreases |s|
  {
    if s == [] then []
    else (if leq(n, s[0].name) && leq(s[0].name, n) then [s[0]] else []) + NamedLike(s[1..], n, leq)
  }

  /** What a stable sort promises: records whose names compare equal keep their relative
      order from `s` in `t`. */
  ghost predicate KeepsOrderOfEqualNames(s: seq<ExtractedFile>, t: seq<ExtractedFile>, leq: (string, string) -> bool) {
    forall n :: NamedLike(t, n, leq) == NamedLike(s, n, leq)
  }

  lemma {:induction false} NamedLikeAppend(s: seq<ExtractedFile>, t: seq<ExtractedFile>, n: string, leq: (string, string) -> bool)
    ensures NamedLike(s + t, n, leq) == NamedLike(s, n, leq) + NamedLike(t, n, leq)
    decreases |s|
  {
    if s == [] {
      assert s + t == t;
    } else {
      assert (s + t)[0] == s[0];
      assert (s + t)[1..] == s[1..] + t;
      NamedLikeAppend(s[1..], t, n, leq);
    }
  }

  /** Two records whose names are strictly out of order are never both equal to one name. */
  lemma PairNamedLike(x: ExtractedFile, y: ExtractedFile, n: string, leq: (string, string) -> bool)
    requires TotalPreorder(leq) && !leq(x.name, y.name)
    ensures NamedLike([x, y], n, leq) == NamedLike([y, x], n, leq)
  {
    assert [x, y][1..] == [y] && [y, x][1..] == [x];
    assert [x][1..] == [] && [y][1..] == [];
  }

  /** Swapping two neighbours whose names are strictly out of order keeps the order among
      records with equal names. */
  lemma SwapKeepsOrderOfEqualNames(o: seq<ExtractedFile>, s: seq<ExtractedFile>, t: seq<ExtractedFile>, j: nat, leq: (string, string) -> bool)
    requires TotalPreorder(leq) && KeepsOrderOfEqualNames(o, s, leq)
    requires 0 < j < |s| && !leq(s[j - 1].name, s[j].name)
    requires t == s[j - 1 := s[j]][j := s[j - 1]]
    ensures KeepsOrderOfEqualNames(o, t, leq)
    ensures multiset(t) == multiset(s)
  {
    var front, back := s[..j - 1], s[j + 1..];
    assert s == front + [s[j - 1], s[j]] + back;
    assert t == front + [s[j], s[j - 1]] + back;
    assert multiset([s[j - 1], s[j]]) == multiset([s[j], s[j - 1]]);
    forall n ensures NamedLike(t, n, leq) == NamedLike(o, n, leq) {
      NamedLikeAppend(front + [s[j - 1], s[j]], back, n, leq);
      NamedLikeAppend(front, [s[j - 1], s[j]], n, leq);
      NamedLikeAppend(front + [s[j], s[j - 1]], back, n, leq);
      NamedLikeAppend(front, [s[j], s[j - 1]], n, leq);
      PairNamedLike(s[j - 1], s[j], n, leq);
    }
  }

  /** The shape of the prefix `s[..i + 1]` while record `j` moves left: ordered everywhere
      except around position `j`, and the moving record no greater than anything after it. */
  ghost predicate InsertionShape(s: seq<ExtractedFile>, i: nat, j: nat, leq: (string, string) -> bool)
    requires j <= i < |s|
  {
    && (forall p, q :: 0 <= p < q <= i && p != j && q != j ==> leq(s[p].name, s[q].name))
    && (forall q :: j < q <= i ==> leq(s[j].name, s[q].name))
  }

  /** Moving the record at `j` one place left past a strictly greater name keeps the shape. */
  lemma SwapKeepsInsertionShape(s: seq<ExtractedFile>, t: seq<ExtractedFile>, i: nat, j: nat, leq: (string, string) -> bool)
    requires TotalPreorder(leq)
    requires 0 < j <= i < |s| && InsertionShape(s, i, j, leq)
    requires !leq(s[j - 1].name, s[j].name)
    requires t == s[j - 1 := s[j]][j := s[j - 1]]
    ensures InsertionShape(t, i, j - 1, leq)
  {
  }

  /** `files.sort((a, b) => a.name.localeCompare(b.name))`, as an insertion sort in place:
      each record in turn moves left past every record whose name compares strictly greater. */
  method SortByName(a: array<ExtractedFile>, leq: (string, string) -> bool)
    requires TotalPreorder(leq)
    modifies a
    ensures SortedByName(a[..], leq)
    ensures multiset(a[..]) == multiset(old(a[..]))
    ensures KeepsOrderOfEqualNames(old(a[..]), a[..], leq)
  {
    var i := 0;
    while i < a.Length
      invariant 0 <= i <= a.Length
      invariant SortedPrefix(a[..], i, leq)
      invariant multiset(a[..]) == multiset(old(a[..]))
      invariant KeepsOrderOfEqualNames(old(a[..]), a[..], leq)
    {
      InsertIntoPrefix(a, i, leq);
      i := i + 1;
    }
  }

  /** The sorted copy that `files.sort(...)` leaves in the working list. */
  method SortedCopy(files: seq<ExtractedFile>, leq: (string, string) -> bool) returns (sorted: seq<ExtractedFile>)
    requires TotalPreorder(leq)
    ensures SortedByName(sorted, leq)
    ensures multiset(sorted) == multiset(files)
    ensures KeepsOrderOfEqualNames(files, sorted, leq)
  {
    var a := new ExtractedFile[|files|](k requires 0 <= k < |files| => files[k]);
    assert a[..] == files;
    SortByName(a, leq);
    sorted := a[..];
  }

  /** One pass of the insertion sort: with the first `i` records in order, move record `i`
      left until the first `i + 1` are in order. */
  method InsertIntoPrefix(a: array<ExtractedFile>, i: nat, leq: (string, string) -> bool)
    requires TotalPreorder(leq)
    requires i < a.Length && SortedPrefix(a[..], i, leq)
    modifies a
    ensures SortedPrefix(a[..], i + 1, leq)
    ensures multiset(a[..]) == multiset(old(a[..]))
    ensures KeepsOrderOfEqualNames(old(a[..]), a[..], leq)
    ensures a[i + 1..] == old(a[i + 1..])
  {
    var j := i;
    while j > 0 && !leq(a[j - 1].name, a[j].name)
      invariant 0 <= j <= i
      invariant InsertionShape(a[..], i, j, leq)
      invariant multiset(a[..]) == multiset(old(a[..]))
      invariant KeepsOrderOfEqualNames(old(a[..]), a[..], leq)
      invariant a[i + 1..] == old(a[i + 1..])
    {
      ghost var before := a[..];
      a[j - 1], a[j] := a[j], a[j - 1];
      assert a[..] == before[j - 1 := before[j]][j := before[j - 1]];
      SwapKeepsInsertionShape(before, a[..], i, j, leq);
      SwapKeepsOrderOfEqualNames(old(a[..]), before, a[..], j, leq);
      j := j - 1;
    }
  }

}
