/**
 * The names main.py derives: the chapter's output directory, the chapter name,
 * each image's custom name and the file name an image is saved under.
 */
module Naming {
  import opened Wrappers
  import opened Decimal
  import opened PyStr
  import opened Sanitize
  import opened Chapters

  /** `url.split('/')[-2].split('-', 1)[1].replace('-', ' ').title()`;
      each failing index is an `IndexError`. */
  function DirectoryName(url: string): (r: Result<string>)
    ensures r.Err? ==> r.error == IndexError
    ensures '/' !in url ==> r == Err(IndexError)
  {
    assert '/' !in url ==> Split(url, '/') == [url] by {
      if '/' !in url {
        SplitJoin([url], '/');
        assert Join([url], '/') == url;
      }
    }
    var segments := Split(url, '/');
    if |segments| < 2 then Err(IndexError)
    else
      var halves := SplitOnce(segments[|segments| - 2], '-');
      if |halves| < 2 then Err(IndexError)
      else Ok(Title(Replace(halves[1], '-', ' ')))
  }

  /** For a URL ending in `/`, the directory name comes from the last path segment:
      its text after the first `-`, dashes turned to spaces, title-cased; a segment
      without `-` raises `IndexError`. */
  lemma DirectoryNameOfSegment(front: string, segment: string)
    requires '/' !in segment
    ensures '-' !in segment ==> DirectoryName(front + "/" + segment + "/") == Err(IndexError)
    ensures forall head, tail :: '-' !in head && segment == head + "-" + tail ==>
      DirectoryName(front + "/" + segment + "/") == Ok(Title(Replace(tail, '-', ' ')))
  {
    var url := front + "/" + segment + "/";
    assert Split(segment, '/') == [segment] by {
      SplitJoin([segment], '/');
      assert Join([segment], '/') == segment;
    }
    assert Split(segment + "/", '/') == [segment, ""] by {
      SplitAppend(segment, "", '/');
      assert segment + ['/'] + "" == segment + "/";
    }
    assert Split(url, '/') == Split(front, '/') + [segment, ""] by {
      SplitAppend(front, segment + "/", '/');
      assert url == front + ['/'] + (segment + "/");
    }
    forall head, tail | '-' !in head && segment == head + "-" + tail
      ensures DirectoryName(url) == Ok(Title(Replace(tail, '-', ' ')))
    {
      SplitOnceAt(head, tail, '-');
    }
  }

  /** The title-cased directory name of chapter p's page. */
  function ChapterDirectory(p: nat): string
  {
    "Myst Might Mayhem Chapter " + NatToDecimal(p)
  }

  /** Inverse of ChapterDirectory: the chapter number a directory name carries (0 if none). */
  function ChapterOfDirectory(directory: string): nat
  {
    var n := |"Myst Might Mayhem Chapter "|;
    if |directory| > n && directory[..n] == "Myst Might Mayhem Chapter " && AllDigits(directory[n..])
    then DecimalValue(directory[n..])
    else 0
  }

  /** Each chapter gets a directory of its own. */
  lemma ChapterOfChapterDirectory(p: nat)
    ensures ChapterOfDirectory(ChapterDirectory(p)) == p
  {
    var n := |"Myst Might Mayhem Chapter "|;
    assert ChapterDirectory(p)[..n] == "Myst Might Mayhem Chapter ";
    assert ChapterDirectory(p)[n..] == NatToDecimal(p);
    DecimalRoundTrip(p);
  }

  /** Every URL `get_website_urls` yields has a directory name: no `IndexError` occurs. */
  lemma DirectoryNameOfChapter(p: nat)
    ensures DirectoryName(ChapterUrl(p)) == Ok(ChapterDirectory(p))
  {
    var d := NatToDecimal(p);
    assert ChapterUrl(p) == Host + "/" + (SeriesId + "-" + (SeriesWords + d)) + "/";
    assert '/' !in SeriesId && '/' !in SeriesWords && '/' !in d && '-' !in SeriesId;
    DirectoryNameOfSegment(Host, SeriesId + "-" + (SeriesWords + d));
    ChapterWords(d);
  }

  lemma ChapterWords(d: string)
    requires AllDigits(d)
    ensures Title(Replace(SeriesWords + d, '-', ' ')) == "Myst Might Mayhem Chapter " + d
  {
    TemplateWords();
    SeriesText(d);
    assert '-' !in d;
    DashesToSpaces("myst", "might", "mayhem", "chapter", d);
    CapitalizeWords("myst", "might", "mayhem", "chapter", d);
  }

  /** Facts about the template's four words, one at a time. */
  lemma TemplateWords()
    ensures '-' !in "myst" && '-' !in "might" && '-' !in "mayhem" && '-' !in "chapter"
    ensures LowerWord("myst") && LowerWord("might") && LowerWord("mayhem") && LowerWord("chapter")
    ensures Capitalized("myst") == "Myst" && Capitalized("might") == "Might"
    ensures Capitalized("mayhem") == "Mayhem" && Capitalized("chapter") == "Chapter"
  {
  }

  lemma SeriesText(d: string)
    ensures SeriesWords + d
         == "myst" + ['-'] + ("might" + ['-'] + ("mayhem" + ['-'] + ("chapter" + ['-'] + d)))
    ensures "Myst Might Mayhem Chapter " + d
         == "Myst" + [' '] + ("Might" + [' '] + ("Mayhem" + [' '] + ("Chapter" + [' '] + d)))
  {
  }

  function Capitalized(w: string): string
    requires w != []
  {
    [ToUpper(w[0])] + w[1..]
  }

  predicate LowerWord(w: string) { w != [] && forall i :: 0 <= i < |w| ==> IsLower(w[i]) }

  /** `replace('-', ' ')` on four dash-separated words and a tail. */
  lemma DashesToSpaces(a: string, b: string, c: string, e: string, d: string)
    requires '-' !in a && '-' !in b && '-' !in c && '-' !in e && '-' !in d
    ensures Replace(a + ['-'] + (b + ['-'] + (c + ['-'] + (e + ['-'] + d))), '-', ' ')
         == a + [' '] + (b + [' '] + (c + [' '] + (e + [' '] + d)))
  {
    ReplaceAbsent(d, '-', ' ');
    ReplaceWord(e, d, '-', ' ');
    ReplaceWord(c, e + ['-'] + d, '-', ' ');
    ReplaceWord(b, c + ['-'] + (e + ['-'] + d), '-', ' ');
    ReplaceWord(a, b + ['-'] + (c + ['-'] + (e + ['-'] + d)), '-', ' ');
  }

  /** `title()` on four lower-case words and a digit tail, separated by spaces. */
  lemma CapitalizeWords(a: string, b: string, c: string, e: string, d: string)
    requires LowerWord(a) && LowerWord(b) && LowerWord(c) && LowerWord(e) && AllDigits(d)
    ensures Title(a + [' '] + (b + [' '] + (c + [' '] + (e + [' '] + d))))
         == Capitalized(a) + [' '] + (Capitalized(b) + [' '] + (Capitalized(c) + [' '] + (Capitalized(e) + [' '] + d)))
  {
    TitleWord(a, b + [' '] + (c + [' '] + (e + [' '] + d)));
    TitleWord(b, c + [' '] + (e + [' '] + d));
    TitleWord(c, e + [' '] + d);
    TitleWord(e, d);
    TitleFromUncased(d, false);
  }

  /** The chapter name in force after `for custom_name in names: pass`: the last name
      yielded, or, when nothing is yielded, whatever the variable held before (it is
      never reset between chapters; `None` stands for never assigned). */
  method LastName(previous: Option<string>, names: seq<string>) returns (name: Option<string>)
    ensures names == [] ==> name == previous
    ensures names != [] ==> name == Some(names[|names| - 1])
  {
    name := previous;
    for i := 0 to |names|
      invariant i == 0 ==> name == previous
      invariant i > 0 ==> name == Some(names[i - 1])
    {
      name := Some(names[i]);
    }
  }

  /** `f"{name} - {index:02}"` */
  function ImageName(name: string, index: nat): (r: string)
    ensures |r| >= |name| + 5 && r[..|name|] == name && r[|name|..|name| + 3] == " - "
    ensures r[|name| + 3..] == Pad2(index)
  {
    var r := name + " - " + Pad2(index);
    assert r[|name| + 3..] == Pad2(index);
    r
  }

  /** A custom name counts only when it is truthy: present and non-empty. */
  function Truthy(custom: Option<string>): (b: bool)
    ensures b <==> custom != None && custom != Some("")
  {
    custom.Some? && |custom.value| > 0
  }

  /** The file name `get_and_save_image_to_file` saves under: the sanitized custom name,
      or else the first ten characters of the content's hex digest, plus `.webp`. */
  function OutputFilename(custom: Option<string>, hexDigest: string): (r: string)
    ensures |r| >= 5 && r[|r| - 5..] == ".webp"
    ensures Truthy(custom) ==> |r| == |custom.value| + 5 && r[..|r| - 5] == Sanitized(custom.value)
    ensures !Truthy(custom) ==> r[..|r| - 5] == hexDigest[..if |hexDigest| < 10 then |hexDigest| else 10]
  {
    var base := if Truthy(custom) then Sanitized(custom.value)
                else hexDigest[..if |hexDigest| < 10 then |hexDigest| else 10];
    var r := base + ".webp";
    assert r[..|r| - 5] == base;
    r
  }

  predicate IsHexDigit(c: char) { '0' <= c <= '9' || 'a' <= c <= 'f' }

  /** The file name never holds a forbidden path character, so the file lands in the
      chapter directory: the custom branch is sanitized, a hex digest has none. */
  lemma OutputFilenameIsClean(custom: Option<string>, hexDigest: string)
    requires forall i :: 0 <= i < |hexDigest| ==> IsHexDigit(hexDigest[i])
    ensures forall i :: 0 <= i < |OutputFilename(custom, hexDigest)| ==>
      !IsForbidden(OutputFilename(custom, hexDigest)[i])
  {
    var r := OutputFilename(custom, hexDigest);
    if Truthy(custom) { SanitizedIsClean(custom.value); }
    forall i | 0 <= i < |r| ensures !IsForbidden(r[i]) {
      if i >= |r| - 5 { assert r[i] == ".webp"[i - (|r| - 5)]; }
      else { assert r[i] == r[..|r| - 5][i]; }
    }
  }

  /** The name main.py saves image `index` of a chapter called `name` under. */
  function ImageFilename(name: string, index: nat): string
  {
    Sanitized(ImageName(name, index)) + ".webp"
  }

  /** An image's file name is a `.webp` name with no forbidden path character. */
  lemma ImageFilenameIsClean(name: string, index: nat)
    ensures |ImageFilename(name, index)| == |name| + |Pad2(index)| + 8
    ensures ImageFilename(name, index)[|ImageFilename(name, index)| - 5..] == ".webp"
    ensures forall i :: 0 <= i < |ImageFilename(name, index)| ==> !IsForbidden(ImageFilename(name, index)[i])
  {
    var base := Sanitized(ImageName(name, index));
    SanitizedIsClean(ImageName(name, index));
    var r := base + ".webp";
    assert r[|r| - 5..] == ".webp";
    assert forall i :: |base| <= i < |r| ==> r[i] == ".webp"[i - |base|];
  }

  /** main.py's per-image custom name is never empty, so the digest is never used. */
  lemma ImageFilenameIgnoresDigest(name: string, index: nat, hexDigest: string)
    ensures OutputFilename(Some(ImageName(name, index)), hexDigest) == ImageFilename(name, index)
  {
  }

  /** Sanitizing leaves the ` - ` and the padded index alone. */
  lemma ImageFilenameParts(name: string, index: nat)
    ensures ImageFilename(name, index) == Sanitized(name + " - ") + Pad2(index) + ".webp"
  {
    assert ImageName(name, index) == (name + " - ") + Pad2(index);
    SanitizedAppend(name + " - ", Pad2(index));
    SanitizedIdentity(Pad2(index));
  }

  /** Two images of one chapter never share a file name. */
  lemma ImageFilenamesDistinct(name: string, i: nat, j: nat)
    requires i != j
    ensures ImageFilename(name, i) != ImageFilename(name, j)
  {
    ImageFilenameParts(name, i);
    ImageFilenameParts(name, j);
    var pre := Sanitized(name + " - ");
    var a, b := pre + Pad2(i) + ".webp", pre + Pad2(j) + ".webp";
    assert a[|pre|..|a| - 5] == Pad2(i);
    assert b[|pre|..|b| - 5] == Pad2(j);
  }
}
