/** The two image-name tests. The browser reader keeps names matching `/\.(jpe?g|png|gif|webp)$/i`
    and the batch script names matching `/\.(png|jpg|jpeg|gif)$/`. Both regular expressions are
    written as values of a small pattern language without repetition; a match is a search for a
    substring that matches the pattern and ends at the end of the name. */
module Extensions {

  /** Regular expressions built from literal words, concatenation, alternation and `?`. */
  datatype Pattern =
    | Word(w: string)
    | Concat(left: Pattern, right: Pattern)
    | Union(left: Pattern, right: Pattern)
    | Optional(body: Pattern)

  /** JavaScript's case-insensitive matching without the `u` flag compares upper-cased characters,
      and never maps a non-ASCII character to an ASCII one, so for these patterns only the ASCII
      letters fold. */
  function Canon(c: char, ignoreCase: bool): char {
    if ignoreCase && 'a' <= c <= 'z' then (c as int - 32) as char else c
  }

  function Fold(s: string, ignoreCase: bool): (r: string)
    ensures |r| == |s|
    ensures forall k :: 0 <= k < |s| ==> r[k] == Canon(s[k], ignoreCase)
  {
    seq(|s|, k requires 0 <= k < |s| => Canon(s[k], ignoreCase))
  }

  /** `s` as a whole matches `p`. */
  predicate Matches(p: Pattern, s: string, ignoreCase: bool)
    decreases p
  {
    match p
    case Word(w) => |s| == |w| && forall k :: 0 <= k < |s| ==> Canon(s[k], ignoreCase) == Canon(w[k], ignoreCase)
    case Concat(a, b) => exists k :: 0 <= k <= |s| && Matches(a, s[..k], ignoreCase) && Matches(b, s[k..], ignoreCase)
    case Union(a, b) => Matches(a, s, ignoreCase) || Matches(b, s, ignoreCase)
    case Optional(a) => s == [] || Matches(a, s, ignoreCase)
  }

  /** `RegExp.prototype.test` / `String.prototype.match` with a trailing `$` and no `m` flag:
      some suffix of `s` matches `p`. */
  predicate TestAnchoredAtEnd(p: Pattern, s: string, ignoreCase: bool) {
    exists i :: 0 <= i <= |s| && Matches(p, s[i..], ignoreCase)
  }

  /** `\.(jpe?g|png|gif|webp)` */
  const BrowserImagePattern: Pattern :=
    Concat(Word("."),
      Union(Union(Union(Concat(Word("jp"), Concat(Optional(Word("e")), Word("g"))),
                        Word("png")),
                  Word("gif")),
            Word("webp")))

  /** `\.(png|jpg|jpeg|gif)` */
  const BatchImagePattern: Pattern :=
    Concat(Word("."),
      Union(Union(Union(Word("png"), Word("jpg")), Word("jpeg")), Word("gif")))

  /** The browser's test: case-insensitive, five extensions. */
  predicate IsBrowserImageName(name: string) {
    TestAnchoredAtEnd(BrowserImagePattern, name, true)
  }

  /** The batch script's test: case-sensitive, no `webp`. */
  predicate IsBatchImageName(name: string) {
    TestAnchoredAtEnd(BatchImagePattern, name, false)
  }

  // ---------------------------------------------------------------------------------------
  // The finite language of a pattern, and the suffix characterisation of a test

  function Prefixed(x: string, ys: seq<string>): (r: seq<string>)
    ensures |r| == |ys|
    ensures forall k :: 0 <= k < |ys| ==> r[k] == x + ys[k]
  {
    seq(|ys|, k requires 0 <= k < |ys| => x + ys[k])
  }

  /** Every concatenation of a word of `xs` with a word of `ys`. */
  function Products(xs: seq<string>, ys: seq<string>): (r: seq<string>)
    ensures forall z :: z in r <==> exists x, y :: x in xs && y in ys && z == x + y
  {
    if xs == [] then []
    else
      var rest := Products(xs[1..], ys);
      assert forall x :: x in xs[1..] ==> x in xs;
      assert forall x :: x in xs ==> x == xs[0] || x in xs[1..];
      Prefixed(xs[0], ys) + rest
  }

  lemma InProducts(xs: seq<string>, ys: seq<string>, x: string, y: string)
    requires x in xs && y in ys
    ensures x + y in Products(xs, ys)
  {
  }

  /** The words a pattern denotes, listed. */
  function Words(p: Pattern): seq<string>
    decreases p
  {
    match p
    case Word(w) => [w]
    case Concat(a, b) => Products(Words(a), Words(b))
    case Union(a, b) => Words(a) + Words(b)
    case Optional(a) => [""] + Words(a)
  }

  predicate EndsWith(s: string, suffix: string) {
    |suffix| <= |s| && s[|s| - |suffix|..] == suffix
  }

  lemma FoldSlices(s: string, k: nat, ignoreCase: bool)
    requires k <= |s|
    ensures Fold(s, ignoreCase)[..k] == Fold(s[..k], ignoreCase)
    ensures Fold(s, ignoreCase)[k..] == Fold(s[k..], ignoreCase)
  {
  }

  lemma FoldSplit(s: string, k: nat, ignoreCase: bool)
    requires k <= |s|
    ensures Fold(s, ignoreCase) == Fold(s[..k], ignoreCase) + Fold(s[k..], ignoreCase)
  {
    FoldSlices(s, k, ignoreCase);
    var fs := Fold(s, ignoreCase);
    assert fs == fs[..k] + fs[k..];
  }

  lemma FoldConcat(x: string, y: string, ignoreCase: bool)
    ensures Fold(x + y, ignoreCase) == Fold(x, ignoreCase) + Fold(y, ignoreCase)
  {
  }

  /** A whole-string match is folded equality with one of the pattern's words. */
  lemma {:induction false} MatchesIsFoldedWord(p: Pattern, s: string, ignoreCase: bool)
    ensures Matches(p, s, ignoreCase) <==> exists w :: w in Words(p) && Fold(s, ignoreCase) == Fold(w, ignoreCase)
    decreases p, 1
  {
    match p
    case Word(w) =>
      if Fold(s, ignoreCase) == Fold(w, ignoreCase) {
        assert forall k :: 0 <= k < |s| ==> Fold(s, ignoreCase)[k] == Fold(w, ignoreCase)[k];
      }
      if Matches(p, s, ignoreCase) {
        assert Fold(s, ignoreCase) == Fold(w, ignoreCase);
      }
    case Concat(a, b) =>
      if Matches(p, s, ignoreCase) {
        ConcatMatchIsFoldedWord(a, b, s, ignoreCase);
      }
      if exists w :: w in Words(p) && Fold(s, ignoreCase) == Fold(w, ignoreCase) {
        FoldedWordMatchesConcat(a, b, s, ignoreCase);
      }
    case Union(a, b) =>
      MatchesIsFoldedWord(a, s, ignoreCase);
      MatchesIsFoldedWord(b, s, ignoreCase);
    case Optional(a) =>
      MatchesIsFoldedWord(a, s, ignoreCase);
      assert Fold([], ignoreCase) == [];
      if Fold(s, ignoreCase) == Fold("", ignoreCase) {
        assert s == [];
      }
  }

  /** A split of `s` matching `a` then `b` spells, up to case, a word of the product. */
  lemma {:induction false} ConcatMatchIsFoldedWord(a: Pattern, b: Pattern, s: string, ignoreCase: bool)
    requires Matches(Concat(a, b), s, ignoreCase)
    ensures exists w :: w in Words(Concat(a, b)) && Fold(s, ignoreCase) == Fold(w, ignoreCase)
    decreases Concat(a, b), 0
  {
    var k :| 0 <= k <= |s| && Matches(a, s[..k], ignoreCase) && Matches(b, s[k..], ignoreCase);
    MatchesIsFoldedWord(a, s[..k], ignoreCase);
    MatchesIsFoldedWord(b, s[k..], ignoreCase);
    var x :| x in Words(a) && Fold(s[..k], ignoreCase) == Fold(x, ignoreCase);
    var y :| y in Words(b) && Fold(s[k..], ignoreCase) == Fold(y, ignoreCase);
    FoldSplit(s, k, ignoreCase);
    FoldConcat(x, y, ignoreCase);
    InProducts(Words(a), Words(b), x, y);
  }

  /** A string spelling, up to case, a word of the product splits where the word does. */
  lemma {:induction false} FoldedWordMatchesConcat(a: Pattern, b: Pattern, s: string, ignoreCase: bool)
    requires exists w :: w in Words(Concat(a, b)) && Fold(s, ignoreCase) == Fold(w, ignoreCase)
    ensures Matches(Concat(a, b), s, ignoreCase)
    decreases Concat(a, b), 0
  {
    var w :| w in Words(Concat(a, b)) && Fold(s, ignoreCase) == Fold(w, ignoreCase);
    var x, y :| x in Words(a) && y in Words(b) && w == x + y;
    var k := |x|;
    FoldConcat(x, y, ignoreCase);
    FoldSlices(s, k, ignoreCase);
    assert Fold(s[..k], ignoreCase) == Fold(x, ignoreCase);
    assert Fold(s[k..], ignoreCase) == Fold(y, ignoreCase);
    MatchesIsFoldedWord(a, s[..k], ignoreCase);
    MatchesIsFoldedWord(b, s[k..], ignoreCase);
  }

  /** A test anchored at the end is a suffix check against the pattern's words. */
  lemma TestIsSuffixCheck(p: Pattern, s: string, ignoreCase: bool)
    ensures TestAnchoredAtEnd(p, s, ignoreCase) <==>
            exists w :: w in Words(p) && EndsWith(Fold(s, ignoreCase), Fold(w, ignoreCase))
  {
    if TestAnchoredAtEnd(p, s, ignoreCase) {
      var i :| 0 <= i <= |s| && Matches(p, s[i..], ignoreCase);
      MatchesIsFoldedWord(p, s[i..], ignoreCase);
      var w :| w in Words(p) && Fold(s[i..], ignoreCase) == Fold(w, ignoreCase);
      FoldSlices(s, i, ignoreCase);
      assert EndsWith(Fold(s, ignoreCase), Fold(w, ignoreCase));
    }
    if exists w :: w in Words(p) && EndsWith(Fold(s, ignoreCase), Fold(w, ignoreCase)) {
      var w :| w in Words(p) && EndsWith(Fold(s, ignoreCase), Fold(w, ignoreCase));
      var i := |s| - |w|;
      FoldSlices(s, i, ignoreCase);
      MatchesIsFoldedWord(p, s[i..], ignoreCase);
    }
  }

  const BrowserExtensions: seq<string> := [".jpg", ".jpeg", ".png", ".gif", ".webp"]
  const BatchExtensions: seq<string> := [".png", ".jpg", ".jpeg", ".gif"]

  /** `jpe?g` denotes "jpg" and "jpeg". */
  lemma JpegWords()
    ensures Words(Concat(Word("jp"), Concat(Optional(Word("e")), Word("g")))) == ["jpg", "jpeg"]
  {
    assert Words(Optional(Word("e"))) == ["", "e"];
    assert Products(["", "e"], ["g"]) == ["g", "eg"] by {
      assert "" + "g" == "g";
      assert "e" + "g" == "eg";
    }
    assert Products(["jp"], ["g", "eg"]) == ["jpg", "jpeg"] by {
      assert Products(["jp"], ["g", "eg"]) == Prefixed("jp", ["g", "eg"]) + [];
      assert "jp" + "g" == "jpg";
      assert "jp" + "eg" == "jpeg";
    }
  }

  lemma BrowserWords()
    ensures Words(BrowserImagePattern) == BrowserExtensions
  {
    JpegWords();
    var alts := ["jpg", "jpeg", "png", "gif", "webp"];
    assert Words(BrowserImagePattern.right) == alts;
    assert Products(["."], alts) == BrowserExtensions by {
      assert Products(["."], alts) == Prefixed(".", alts) + [];
      assert "." + "jpg" == ".jpg" && "." + "jpeg" == ".jpeg" && "." + "png" == ".png";
      assert "." + "gif" == ".gif" && "." + "webp" == ".webp";
    }
  }

  lemma BatchWords()
    ensures Words(BatchImagePattern) == BatchExtensions
  {
    var alts := ["png", "jpg", "jpeg", "gif"];
    assert Products(["."], alts) == BatchExtensions by {
      assert Products(["."], alts) == Prefixed(".", alts) + [];
      assert "." + "png" == ".png" && "." + "jpg" == ".jpg";
      assert "." + "jpeg" == ".jpeg" && "." + "gif" == ".gif";
    }
  }

  // ---------------------------------------------------------------------------------------
  // The two tests as suffix checks, and how they differ

  lemma FoldCaseSensitive(s: string)
    ensures Fold(s, false) == s
  {
  }

  /** The browser keeps a name exactly when, ignoring ASCII case, it ends in one of the five
      extensions. */
  lemma BrowserImageNameBySuffix(name: string)
    ensures IsBrowserImageName(name) <==>
            exists ext :: ext in BrowserExtensions && EndsWith(Fold(name, true), Fold(ext, true))
  {
    TestIsSuffixCheck(BrowserImagePattern, name, true);
    BrowserWords();
  }

  /** The script keeps a name exactly when it ends, with this exact case, in one of four
      extensions. */
  lemma BatchImageNameBySuffix(name: string)
    ensures IsBatchImageName(name) <==> exists ext :: ext in BatchExtensions && EndsWith(name, ext)
  {
    TestIsSuffixCheck(BatchImagePattern, name, false);
    BatchWords();
    FoldCaseSensitive(name);
    forall ext | ext in BatchExtensions ensures Fold(ext, false) == ext {
      FoldCaseSensitive(ext);
    }
  }

  lemma EndsWithFolded(s: string, suffix: string)
    requires EndsWith(s, suffix)
    ensures EndsWith(Fold(s, true), Fold(suffix, true))
  {
    FoldSlices(s, |s| - |suffix|, true);
  }

  /** Every name the script extracts the browser would also show. */
  lemma BatchNameIsBrowserName(name: string)
    requires IsBatchImageName(name)
    ensures IsBrowserImageName(name)
  {
    BatchImageNameBySuffix(name);
    var ext :| ext in BatchExtensions && EndsWith(name, ext);
    EndsWithFolded(name, ext);
    assert ext in BrowserExtensions;
    BrowserImageNameBySuffix(name);
  }

  /** Every browser extension ends in `g`, `f` or `p`, in either case. */
  lemma NotBrowserImageName(name: string)
    requires |name| > 0 && Canon(name[|name| - 1], true) !in {'G', 'F', 'P'}
    ensures !IsBrowserImageName(name)
  {
    BrowserImageNameBySuffix(name);
    forall ext | ext in BrowserExtensions
      ensures !EndsWith(Fold(name, true), Fold(ext, true))
    {
      var f := Fold(ext, true);
      assert f[|f| - 1] in {'G', 'F', 'P'};
    }
  }

  /** A name ending in a spelling of a browser extension that differs only in letter case. */
  lemma BrowserImageNameBySpelling(name: string, spelling: string, ext: string)
    requires ext in BrowserExtensions && EndsWith(name, spelling)
    requires |spelling| == |ext| && forall k :: 0 <= k < |ext| ==> Canon(spelling[k], true) == Canon(ext[k], true)
    ensures IsBrowserImageName(name)
  {
    EndsWithFolded(name, spelling);
    assert Fold(spelling, true) == Fold(ext, true);
    BrowserImageNameBySuffix(name);
  }

  /** Upper-case extensions and `.webp` are shown by the browser but skipped by the script. */
  lemma ExtensionTestsDiverge()
    ensures IsBrowserImageName("a.PNG") && !IsBatchImageName("a.PNG")
    ensures IsBrowserImageName("b.webp") && !IsBatchImageName("b.webp")
  {
    UpperCaseExtensionDiverges();
    WebpDiverges();
  }

  lemma UpperCaseExtensionDiverges()
    ensures IsBrowserImageName("a.PNG") && !IsBatchImageName("a.PNG")
  {
    assert "a.PNG"[1..] == ".PNG";
    BrowserImageNameBySpelling("a.PNG", ".PNG", ".png");
    BatchImageNameBySuffix("a.PNG");
    forall ext | ext in BatchExtensions ensures !EndsWith("a.PNG", ext) {
      assert ext[|ext| - 1] in {'g', 'f'};
    }
  }

  lemma WebpDiverges()
    ensures IsBrowserImageName("b.webp") && !IsBatchImageName("b.webp")
  {
    assert "b.webp"[1..] == ".webp";
    BrowserImageNameBySpelling("b.webp", ".webp", ".webp");
    BatchImageNameBySuffix("b.webp");
    forall ext | ext in BatchExtensions ensures !EndsWith("b.webp", ext) {
      assert ext[|ext| - 1] in {'g', 'f'};
    }
  }

  /** The browser test is an anchored suffix test that ignores case. */
  lemma BrowserTestExamples()
    ensures IsBrowserImageName("cover.PNG")
    ensures IsBrowserImageName("x.JPEG")
    ensures !IsBrowserImageName("notes.txt.png.bak")
    ensures !IsBrowserImageName("readme.txt")
  {
    assert "cover.PNG"[5..] == ".PNG";
    BrowserImageNameBySpelling("cover.PNG", ".PNG", ".png");
    assert "x.JPEG"[1..] == ".JPEG";
    BrowserImageNameBySpelling("x.JPEG", ".JPEG", ".jpeg");
    NotBrowserImageName("notes.txt.png.bak");
    NotBrowserImageName("readme.txt");
  }

  /** The batch test is a case-sensitive suffix test. */
  lemma BatchTestExamples()
    ensures IsBatchImageName("a.png")
    ensures IsBatchImageName("c.jpg")
  {
    BatchImageNameBySuffix("a.png");
    assert "a.png"[1..] == ".png";
    assert EndsWith("a.png", ".png");
    BatchImageNameBySuffix("c.jpg");
    assert "c.jpg"[1..] == ".jpg";
    assert EndsWith("c.jpg", ".jpg");
  }
}
