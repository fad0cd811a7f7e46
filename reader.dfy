/** The browser reader component: its three state fields, the file-selection handler, the
    effect cleanup that revokes the object URLs of a list that is replaced or unmounted, the
    fullscreen toggle and the page captions. */
module CbzReader {
  import opened Archive
  import opened ObjectUrls
  import opened CbzExtraction

  const NoFileSelected: string := "No file selected"
  const ExtractionFailed: string := "Failed to extract CBZ file"

  /** What the file input delivers: no file, a file whose bytes cannot be read or opened as a
      zip container, or the entries of the opened container in enumeration order. */
  datatype FileSelection = NoFile | LoadFailure | Zip(entries: seq<Entry>)

  datatype FullscreenRequest = RequestEnter | RequestExit | NoRequest

  /** One rendered block: the image source and alt text, and the caption "Page number of total". */
  datatype PageBlock = PageBlock(src: Url, alt: string, number: nat, total: nat)

  // ---------------------------------------------------------------------------------------
  // Facts about revocation logs and permutations

  /** In a sequence without repetitions, an element occurs once. */
  lemma {:induction false} DistinctCountsOnce<T>(s: seq<T>, x: T)
    requires NoDuplicates(s) && x in s
    ensures multiset(s)[x] == 1
  {
    assert s == [s[0]] + s[1..];
    if s[0] == x {
      assert x !in s[1..];
    } else {
      DistinctCountsOnce(s[1..], x);
    }
  }

  /** Appending the URLs of a list whose URLs are distinct and not yet revoked to a log without
      repetitions keeps it without repetitions, and each of those URLs is then in it once. */
  lemma AppendRevokesEachOnce(log: seq<Url>, files: seq<ExtractedFile>)
    requires NoDuplicates(log) && DistinctUrls(files)
    requires forall k :: 0 <= k < |files| ==> files[k].url !in log
    ensures NoDuplicates(log + UrlsOf(files))
    ensures forall k :: 0 <= k < |files| ==> multiset(log + UrlsOf(files))[files[k].url] == 1
  {
    var s := log + UrlsOf(files);
    forall i, j | 0 <= i < j < |s| ensures s[i] != s[j] {
      if j < |log| {
      } else if i < |log| {
        assert s[j] == files[j - |log|].url;
      } else {
        assert s[i] == files[i - |log|].url && s[j] == files[j - |log|].url;
      }
    }
    forall k | 0 <= k < |files| ensures multiset(s)[files[k].url] == 1 {
      assert s[|log| + k] == files[k].url;
      DistinctCountsOnce(s, files[k].url);
    }
  }

  lemma RepeatedRecordCountsTwice(t: seq<ExtractedFile>, i: nat, j: nat)
    requires i < j < |t|
    ensures t[i] == t[j] ==> multiset(t)[t[i]] >= 2
  {
    assert t == t[..j] + t[j..];
    assert t[i] in t[..j] && t[j] in t[j..];
  }

  /** Sorting cannot make two records share a URL. */
  lemma PermutationKeepsUrlsDistinct(s: seq<ExtractedFile>, t: seq<ExtractedFile>)
    requires DistinctUrls(s) && multiset(s) == multiset(t)
    ensures DistinctUrls(t)
  {
    forall i, j | 0 <= i < j < |t| ensures t[i].url != t[j].url {
      assert t[i] in multiset(s) && t[j] in multiset(s);
      var p :| 0 <= p < |s| && s[p] == t[i];
      var q :| 0 <= q < |s| && s[q] == t[j];
      assert t[i].url == t[j].url ==> p == q;
      assert NoDuplicates(s) by {
        assert forall a, b :: 0 <= a < b < |s| ==> s[a].url != s[b].url;
      }
      DistinctCountsOnce(s, t[i]);
      RepeatedRecordCountsTwice(t, i, j);
    }
  }

  /** Revoking URLs that were not among the new registrations commutes with registering them. */
  lemma RevokeCommutesWithRegistration(live: map<Url, Bytes>, added: map<Url, Bytes>, gone: set<Url>)
    requires forall u :: u in gone ==> u !in added
    ensures (live + added) - gone == (live - gone) + added
  {
  }

  /** Registering URLs at or above `base` leaves every URL below it resolving as before. */
  lemma FreshRegistrationKeepsLookups(live: map<Url, Bytes>, added: map<Url, Bytes>, base: Url)
    requires forall u :: u in live ==> u < base
    requires forall u :: u in added ==> base <= u
    ensures forall u :: u in live ==> u in live + added && (live + added)[u] == live[u]
  {
  }

  // ---------------------------------------------------------------------------------------
  // Rendering

  /** `extractedFiles.map((file, index) => ...)`: one block per page, captioned with its
      1-based position and the number of pages. */
  function Pages(files: seq<ExtractedFile>): (r: seq<PageBlock>)
    ensures |r| == |files|
    ensures forall k :: 0 <= k < |r| ==>
      r[k] == PageBlock(files[k].url, files[k].name, k + 1, |files|)
  {
    seq(|files|, k requires 0 <= k < |files| => PageBlock(files[k].url, files[k].name, k + 1, |files|))
  }

  /** The numbers 1 to n. */
  function OneTo(n: nat): set<nat>
    decreases n
  {
    if n == 0 then {} else OneTo(n - 1) + {n}
  }

  lemma {:induction false} InOneTo(n: nat, m: nat)
    ensures m in OneTo(n) <==> 1 <= m <= n
    decreases n
  {
    if n > 0 {
      InOneTo(n - 1, m);
    }
  }

  /** There is one block per record, showing that record, and the captions number the pages
      1 to N of N, in increasing order, without gaps or repeats. */
  lemma PageNumbersAreOneToN(files: seq<ExtractedFile>)
    ensures |Pages(files)| == |files|
    ensures forall k :: 0 <= k < |files| ==>
      && Pages(files)[k].src == files[k].url
      && Pages(files)[k].alt == files[k].name
      && Pages(files)[k].total == |files|
    ensures (set b | b in Pages(files) :: b.number) == OneTo(|files|)
    ensures forall i, j :: 0 <= i < j < |files| ==> Pages(files)[i].number < Pages(files)[j].number
  {
    var r := Pages(files);
    var numbers := set b | b in r :: b.number;
    forall m: nat ensures m in numbers <==> m in OneTo(|files|) {
      InOneTo(|files|, m);
      if 1 <= m <= |files| {
        assert r[m - 1] in r;
      }
    }
  }

  // ---------------------------------------------------------------------------------------
  // The component

  class ShowCbz {
    var extractedFiles: seq<ExtractedFile>
    var error: Option<string>
    var isFullscreen: bool
    /** False once React has unmounted the component; no handler runs after that. */
    var mounted: bool
    /** The browser's object-URL store. */
    const urls: UrlRegistry

    /** The URLs of the current list are distinct URLs the store handed out; while the
        component is mounted each one still resolves to its page's bytes and was never
        revoked; and no URL was revoked twice. */
    ghost predicate Valid()
      reads this, urls
    {
      && urls.Valid()
      && DistinctUrls(extractedFiles)
      && NoDuplicates(urls.revocations)
      && (forall k :: 0 <= k < |urls.revocations| ==> urls.revocations[k] < urls.next)
      && (forall k :: 0 <= k < |extractedFiles| ==> extractedFiles[k].url < urls.next)
      && (mounted ==> forall k :: 0 <= k < |extractedFiles| ==>
            && extractedFiles[k].url in urls.live
            && urls.live[extractedFiles[k].url] == extractedFiles[k].content
            && extractedFiles[k].url !in urls.revocations)
    }

    constructor (urls: UrlRegistry)
      requires urls.Valid() && NoDuplicates(urls.revocations)
      requires forall k :: 0 <= k < |urls.revocations| ==> urls.revocations[k] < urls.next
      ensures Valid() && mounted && this.urls == urls
      ensures extractedFiles == [] && error == None && !isFullscreen
    {
      extractedFiles := [];
      error := None;
      isFullscreen := false;
      mounted := true;
      this.urls := urls;
    }

    /** `extractedFiles.forEach((file) => URL.revokeObjectURL(file.url))` */
    method RevokeUrls(files: seq<ExtractedFile>)
      requires urls.Valid()
      modifies urls
      ensures urls.Valid() && urls.next == old(urls.next)
      ensures urls.revocations == old(urls.revocations) + UrlsOf(files)
      ensures urls.live == old(urls.live) - UrlSet(files)
    {
      var i := 0;
      while i < |files|
        invariant 0 <= i <= |files|
        invariant urls.Valid() && urls.next == old(urls.next)
        invariant urls.revocations == old(urls.revocations) + UrlsOf(files[..i])
        invariant urls.live == old(urls.live) - UrlSet(files[..i])
      {
        urls.RevokeObjectUrl(files[i].url);
        assert UrlsOf(files[..i + 1]) == UrlsOf(files[..i]) + [files[i].url];
        assert UrlSet(files[..i + 1]) == UrlSet(files[..i]) + {files[i].url} by {
          assert forall k :: 0 <= k < i ==> files[..i + 1][k] == files[..i][k];
        }
        i := i + 1;
      }
      assert files[..i] == files;
    }

    /** The cleanup returned by the effect that depends on `extractedFiles`, run when the
        component unmounts: every URL of the list is revoked, once. */
    method Unmount()
      requires Valid() && mounted
      modifies this, urls
      ensures Valid() && !mounted
      ensures extractedFiles == old(extractedFiles) && error == old(error) && isFullscreen == old(isFullscreen)
      ensures urls.next == old(urls.next)
      ensures urls.revocations == old(urls.revocations) + UrlsOf(extractedFiles)
      ensures forall k :: 0 <= k < |extractedFiles| ==> multiset(urls.revocations)[extractedFiles[k].url] == 1
      ensures urls.live == old(urls.live) - UrlSet(extractedFiles)
    {
      AppendRevokesEachOnce(urls.revocations, extractedFiles);
      RevokeUrls(extractedFiles);
      mounted := false;
    }

    /** `handleFileChange`. A selected archive's kept entries are read in enumeration order,
        each gets a new object URL and is pushed onto a working list; the list is sorted by
        name and replaces `extractedFiles` wholesale, the error is cleared, and the effect
        cleanup of the replaced list then revokes its URLs. If reading a kept entry fails the
        handler stops: the list is left alone, the error is set, and the URLs already created
        for this attempt stay allocated. `leq` is the name comparison. */
    method HandleFileChange(selection: FileSelection, leq: (string, string) -> bool)
      requires Valid() && mounted && TotalPreorder(leq)
      modifies this, urls
      ensures Valid() && mounted && isFullscreen == old(isFullscreen)
      ensures selection.NoFile? ==>
        && error == Some(NoFileSelected)
        && extractedFiles == old(extractedFiles)
        && unchanged(urls)
      ensures selection.LoadFailure? ==>
        && error == Some(ExtractionFailed)
        && extractedFiles == old(extractedFiles)
        && unchanged(urls)
      ensures selection.Zip? ==>
        var c := Collect(selection.entries, old(urls.next));
        && urls.next == old(urls.next) + |c.files|
        && (c.complete ==>
              && error == None
              && multiset(extractedFiles) == multiset(c.files)
              && SortedByName(extractedFiles, leq)
              && KeepsOrderOfEqualNames(c.files, extractedFiles, leq)
              && |extractedFiles| == |ImageEntries(selection.entries)|
              && urls.revocations == old(urls.revocations) + UrlsOf(old(extractedFiles))
              && (forall k :: 0 <= k < |old(extractedFiles)| ==>
                    multiset(urls.revocations)[old(extractedFiles)[k].url] == 1)
              && urls.live.Keys == (old(urls.live).Keys - UrlSet(old(extractedFiles))) + UrlSet(c.files)
              && urls.live == (old(urls.live) - UrlSet(old(extractedFiles))) + Registered(c.files))
        && (!c.complete ==>
              && error == Some(ExtractionFailed)
              && extractedFiles == old(extractedFiles)
              && urls.revocations == old(urls.revocations)
              && urls.live.Keys == old(urls.live).Keys + UrlSet(c.files)
              && urls.live == old(urls.live) + Registered(c.files))
    {
      match selection
      case NoFile =>
        error := Some(NoFileSelected);
      case LoadFailure =>
        error := Some(ExtractionFailed);
      case Zip(entries) =>
        HandleArchive(entries, leq);
    }

    /** The archive branch of `handleFileChange`. */
    method HandleArchive(entries: seq<Entry>, leq: (string, string) -> bool)
      requires Valid() && mounted && TotalPreorder(leq)
      modifies this, urls
      ensures Valid() && mounted && isFullscreen == old(isFullscreen)
      ensures
        var c := Collect(entries, old(urls.next));
        && urls.next == old(urls.next) + |c.files|
        && (c.complete ==>
              && error == None
              && multiset(extractedFiles) == multiset(c.files)
              && SortedByName(extractedFiles, leq)
              && KeepsOrderOfEqualNames(c.files, extractedFiles, leq)
              && |extractedFiles| == |ImageEntries(entries)|
              && urls.revocations == old(urls.revocations) + UrlsOf(old(extractedFiles))
              && (forall k :: 0 <= k < |old(extractedFiles)| ==>
                    multiset(urls.revocations)[old(extractedFiles)[k].url] == 1)
              && urls.live.Keys == (old(urls.live).Keys - UrlSet(old(extractedFiles))) + UrlSet(c.files)
              && urls.live == (old(urls.live) - UrlSet(old(extractedFiles))) + Registered(c.files))
        && (!c.complete ==>
              && error == Some(ExtractionFailed)
              && extractedFiles == old(extractedFiles)
              && urls.revocations == old(urls.revocations)
              && urls.live.Keys == old(urls.live).Keys + UrlSet(c.files)
              && urls.live == old(urls.live) + Registered(c.files))
    {
      ghost var base := urls.next;
      var files, complete := ReadImages(entries);
      CollectUrlsAreFresh(entries, base);
      RegisteredShowsEachRecord(files);
      FreshRegistrationKeepsLookups(old(urls.live), Registered(files), base);
      assert Valid();
      if !complete {
        error := Some(ExtractionFailed);
      } else {
        CollectCompletesIffReadable(entries, base);
        ghost var previous := extractedFiles;
        RegisteredKeys(files);
        RevokeCommutesWithRegistration(old(urls.live), Registered(files), UrlSet(previous));
        ShowFiles(files, leq);
        assert |extractedFiles| == |files| by {
          assert |multiset(extractedFiles)| == |multiset(files)|;
        }
      }
    }

    /** The loop of `handleFileChange` over the container's entries: each kept entry is read,
        given a new object URL and pushed. `complete` is false when reading a kept entry
        failed, where the handler's `await` throws. */
    method ReadImages(entries: seq<Entry>) returns (files: seq<ExtractedFile>, complete: bool)
      requires urls.Valid()
      modifies urls
      ensures urls.Valid() && urls.revocations == old(urls.revocations)
      ensures Collect(entries, old(urls.next)) == Collected(files, complete)
      ensures urls.next == old(urls.next) + |files|
      ensures urls.live == old(urls.live) + Registered(files)
    {
      ghost var base := urls.next;
      files := [];
      complete := true;
      var i := 0;
      while i < |entries|
        invariant 0 <= i <= |entries|
        invariant urls.Valid() && urls.revocations == old(urls.revocations)
        invariant urls.next == base + |files|
        invariant Collect(entries, base) == Prepend(files, Collect(entries[i..], base + |files|))
        invariant urls.live == old(urls.live) + Registered(files)
      {
        var e := entries[i];
        if Kept(e) {
          if e.content.None? {
            CollectFailStep(entries, i, base, files);
            complete := false;
            return;
          }
          var url := urls.CreateObjectUrl(e.content.value);
          var file := ExtractedFile(e.name, e.content.value, url);
          CollectPushStep(entries, i, base, files, file);
          RegisteredPush(old(urls.live), files, file);
          files := files + [file];
        } else {
          CollectSkipStep(entries, i, base, files);
        }
        i := i + 1;
      }
      assert entries[i..] == [];
    }

    /** The end of a successful `handleFileChange`: sort the working list by name, make it
        the new `extractedFiles`, clear the error; the effect cleanup of the replaced list
        then revokes each of its URLs. */
    method ShowFiles(files: seq<ExtractedFile>, leq: (string, string) -> bool)
      requires Valid() && mounted && TotalPreorder(leq)
      requires DistinctUrls(files)
      requires forall k :: 0 <= k < |extractedFiles| ==> extractedFiles[k].url !in UrlSet(files)
      requires forall k :: 0 <= k < |urls.revocations| ==> urls.revocations[k] !in UrlSet(files)
      requires forall k :: 0 <= k < |files| ==>
        files[k].url < urls.next && files[k].url in urls.live && urls.live[files[k].url] == files[k].content
      modifies this, urls
      ensures Valid() && mounted && isFullscreen == old(isFullscreen)
      ensures error == None
      ensures multiset(extractedFiles) == multiset(files)
      ensures SortedByName(extractedFiles, leq)
      ensures KeepsOrderOfEqualNames(files, extractedFiles, leq)
      ensures urls.next == old(urls.next)
      ensures urls.revocations == old(urls.revocations) + UrlsOf(old(extractedFiles))
      ensures forall k :: 0 <= k < |old(extractedFiles)| ==> multiset(urls.revocations)[old(extractedFiles)[k].url] == 1
      ensures urls.live == old(urls.live) - UrlSet(old(extractedFiles))
    {
      var sorted := SortedCopy(files, leq);
      PermutationKeepsUrlsDistinct(files, sorted);
      var previous := extractedFiles;
      extractedFiles := sorted;
      error := None;
      forall k | 0 <= k < |extractedFiles|
        ensures extractedFiles[k].url in UrlSet(files) && extractedFiles[k].url < urls.next
        ensures extractedFiles[k].url in urls.live && urls.live[extractedFiles[k].url] == extractedFiles[k].content
      {
        assert extractedFiles[k] in multiset(files);
      }
      AppendRevokesEachOnce(urls.revocations, previous);
      RevokeUrls(previous);
    }

    /** `toggleFullscreen`: `fullscreenElement` is whether the document has a fullscreen
        element, `exitAvailable` whether `document.exitFullscreen` exists. */
    method ToggleFullscreen(fullscreenElement: bool, exitAvailable: bool) returns (request: FullscreenRequest)
      requires Valid() && mounted
      modifies this`isFullscreen
      ensures Valid()
      ensures !fullscreenElement ==> request == RequestEnter && isFullscreen
      ensures fullscreenElement && exitAvailable ==> request == RequestExit && !isFullscreen
      ensures fullscreenElement && !exitAvailable ==> request == NoRequest && isFullscreen == old(isFullscreen)
    {
      if !fullscreenElement {
        request := RequestEnter;
        isFullscreen := true;
      } else if exitAvailable {
        request := RequestExit;
        isFullscreen := false;
      } else {
        request := NoRequest;
      }
    }
  }
}
