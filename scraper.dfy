/**
 * `main`: for every chapter URL, fetch the page, make its directory, take the chapter
 * name, then record and save every image. The browser and the HTML parsers are inputs:
 * `fetched[c]` is what they produced for chapter c + 1.
 */
module Scraper {
  import opened Wrappers
  import opened Decimal
  import opened Chapters
  import opened Manifest
  import opened Naming

  /** What the two parsers yield for one page: `parse_and_get_name` and `parse_image_urls`. */
  datatype Page = Page(names: seq<string>, imageUrls: seq<string>)

  /** One call of `get_and_save_image_to_file`: the image URL, its directory and its file name. */
  datatype SavedImage = SavedImage(directory: string, url: string, filename: string)

  datatype Outcome = Done | Crashed(error: PyError)

  function Last<T>(s: seq<T>): T
    requires s != []
  {
    s[|s| - 1]
  }

  function Init<T>(s: seq<T>): seq<T>
    requires s != []
  {
    s[..|s| - 1]
  }

  /** The value of `custom_name` after the chapters in `fetched` (`None`: never assigned).
      A page that yields no name keeps the previous chapter's name. */
  function NameAfter(fetched: seq<Option<Page>>): Option<string>
  {
    if fetched == [] then None
    else
      var before := NameAfter(Init(fetched));
      match Last(fetched)
      case None => before
      case Some(page) => if page.names == [] then before else Some(Last(page.names))
  }

  /** Some chapter had images while `custom_name` was still unassigned. */
  predicate Crashes(fetched: seq<Option<Page>>)
  {
    fetched != [] &&
    (Crashes(Init(fetched)) ||
     (Last(fetched).Some? && Last(fetched).value.imageUrls != [] && NameAfter(fetched).None?))
  }

  /** The URLs written to the manifest; a crash happens just after its first URL is written. */
  function Recorded(fetched: seq<Option<Page>>): seq<string>
  {
    if fetched == [] then []
    else if Crashes(Init(fetched)) || Last(fetched).None? then Recorded(Init(fetched))
    else
      var urls := Last(fetched).value.imageUrls;
      if NameAfter(fetched).None? && urls != [] then Recorded(Init(fetched)) + [urls[0]]
      else Recorded(Init(fetched)) + urls
  }

  /** The directories created, one per fetched chapter up to a crash. */
  function Directories(fetched: seq<Option<Page>>): seq<string>
  {
    if fetched == [] then []
    else if Crashes(Init(fetched)) || Last(fetched).None? then Directories(Init(fetched))
    else Directories(Init(fetched)) + [ChapterDirectory(|fetched|)]
  }

  /** The images of chapter `chapter`, named `"{name} - {index:02}"`. */
  function ChapterImages(chapter: nat, urls: seq<string>, name: string): (r: seq<SavedImage>)
    ensures |r| == |urls|
  {
    seq(|urls|, k requires 0 <= k < |urls| =>
      SavedImage(ChapterDirectory(chapter), urls[k], ImageFilename(name, k)))
  }

  /** Every `get_and_save_image_to_file` call, in order. */
  function Saved(fetched: seq<Option<Page>>): seq<SavedImage>
  {
    if fetched == [] then []
    else if Crashes(Init(fetched)) || Last(fetched).None? || NameAfter(fetched).None? then Saved(Init(fetched))
    else Saved(Init(fetched)) + ChapterImages(|fetched|, Last(fetched).value.imageUrls, NameAfter(fetched).value)
  }

  /** `main(chapters)`, with the browser's result for each chapter URL given in `fetched`
      (`None` where `get_content_from_url` gave nothing, which is skipped with a warning). */
  method Run(chapters: int, fetched: seq<Option<Page>>)
    returns (manifest: string, directories: seq<string>, saved: seq<SavedImage>, outcome: Outcome)
    requires |fetched| == if chapters > 0 then chapters else 0
    ensures outcome == if Crashes(fetched) then Crashed(UnboundLocalError) else Done
    ensures manifest == ManifestText(Recorded(fetched))
    ensures directories == Directories(fetched)
    ensures saved == Saved(fetched)
  {
    var csv := new CSVManager("links.csv");
    csv.Enter();
    var urls := GetWebsiteUrls(chapters);
    var name: Option<string> := None;
    directories, saved, outcome := [], [], Done;
    var c := 0;
    while c < |urls| && outcome == Done
      invariant 0 <= c <= |urls|
      invariant csv.Valid() && csv.isOpen
      invariant name == NameAfter(fetched[..c])
      invariant outcome == if Crashes(fetched[..c]) then Crashed(UnboundLocalError) else Done
      invariant csv.Urls == Recorded(fetched[..c])
      invariant directories == Directories(fetched[..c])
      invariant saved == Saved(fetched[..c])
    {
      assert fetched[..c + 1] == fetched[..c] + [fetched[c]];
      var named, created, savedNow, crashed := VisitChapter(csv, fetched[..c], urls[c], fetched[c], name);
      name, directories, saved := named, directories + created, saved + savedNow;
      if crashed { outcome := Crashed(UnboundLocalError); }
      c := c + 1;
    }
    if c < |urls| {
      CrashIsFinal(fetched[..c], fetched[c..]);
      assert fetched[..c] + fetched[c..] == fetched;
    } else {
      assert fetched[..c] == fetched;
    }
    csv.Exit();
    manifest := csv.file;
  }

  /** One pass of `main`'s chapter loop, after the chapters in `done`: skip a page the
      browser gave nothing for; otherwise make the chapter directory, take the chapter
      name and record and save the images. */
  method VisitChapter(csv: CSVManager, done: seq<Option<Page>>, url: string, current: Option<Page>, name: Option<string>)
    returns (named: Option<string>, created: seq<string>, saved: seq<SavedImage>, crashed: bool)
    requires csv.Valid() && csv.isOpen
    requires url == ChapterUrl(|done| + 1)
    requires !Crashes(done) && name == NameAfter(done) && csv.Urls == Recorded(done)
    modifies csv`file, csv`Urls
    ensures csv.Valid() && csv.isOpen
    ensures named == NameAfter(done + [current])
    ensures crashed == Crashes(done + [current])
    ensures csv.Urls == Recorded(done + [current])
    ensures Directories(done + [current]) == Directories(done) + created
    ensures Saved(done + [current]) == Saved(done) + saved
  {
    ChapterStep(done, current);
    named, created, saved, crashed := name, [], [], false;
    if current.Some? {
      var page := current.value;
      DirectoryNameOfChapter(|done| + 1);
      created := [DirectoryName(url).value];
      named := LastName(name, page.names);
      saved, crashed := SaveImages(csv, |done| + 1, named, page.imageUrls);
    }
  }

  /** The inner loop of `main` for one chapter: record each URL, then save the image
      under `"{custom_name} - {index:02}"`; with `custom_name` unassigned the first
      image raises `UnboundLocalError` right after its URL was recorded. */
  method SaveImages(csv: CSVManager, chapter: nat, name: Option<string>, images: seq<string>)
    returns (saved: seq<SavedImage>, crashed: bool)
    requires csv.Valid() && csv.isOpen
    modifies csv`file, csv`Urls
    ensures csv.Valid()
    ensures crashed <==> name.None? && images != []
    ensures csv.Urls == old(csv.Urls) + if crashed then [images[0]] else images
    ensures saved == if name.Some? then ChapterImages(chapter, images, name.value) else []
  {
    saved, crashed := [], false;
    var k := 0;
    while k < |images| && !crashed
      invariant 0 <= k <= |images|
      invariant csv.Valid() && csv.isOpen
      invariant crashed ==> name.None? && k == 1 && saved == [] && csv.Urls == old(csv.Urls) + [images[0]]
      invariant !crashed ==> csv.Urls == old(csv.Urls) + images[..k]
      invariant !crashed && name.Some? ==> saved == ChapterImages(chapter, images, name.value)[..k]
      invariant !crashed && name.None? ==> k == 0 && saved == []
    {
      csv.SaveUrlToCsv(images[k]);
      if name.None? {
        crashed := true;
      } else {
        // image k, saved under `"{name} - {index:02}"` in the chapter directory
        var image := ChapterImages(chapter, images, name.value)[k];
        assert ChapterImages(chapter, images, name.value)[..k + 1]
            == ChapterImages(chapter, images, name.value)[..k] + [image];
        saved := saved + [image];
      }
      assert images[..k + 1] == images[..k] + [images[k]];
      k := k + 1;
    }
    if name.Some? {
      assert ChapterImages(chapter, images, name.value)[..|images|] == ChapterImages(chapter, images, name.value);
    }
    assert images[..|images|] == images;
  }

  /** How one more chapter extends the run over the chapters before it. */
  lemma ChapterStep(done: seq<Option<Page>>, current: Option<Page>)
    requires !Crashes(done)
    ensures NameAfter(done + [current]) == match current
      case None => NameAfter(done)
      case Some(page) => if page.names == [] then NameAfter(done) else Some(Last(page.names))
    ensures current.None? ==>
      !Crashes(done + [current]) && Recorded(done + [current]) == Recorded(done) &&
      Directories(done + [current]) == Directories(done) && Saved(done + [current]) == Saved(done)
    ensures current.Some? ==>
      var urls := current.value.imageUrls;
      var name := NameAfter(done + [current]);
      (Crashes(done + [current]) <==> name.None? && urls != []) &&
      Recorded(done + [current]) == Recorded(done) + (if name.None? && urls != [] then [urls[0]] else urls) &&
      Directories(done + [current]) == Directories(done) + [ChapterDirectory(|done| + 1)] &&
      Saved(done + [current]) == Saved(done) + (if name.Some? then ChapterImages(|done| + 1, urls, name.value) else [])
  {
    var f := done + [current];
    assert Init(f) == done && Last(f) == current;
  }

  /** After a crash nothing more is recorded, created or saved. */
  lemma {:induction false} CrashIsFinal(done: seq<Option<Page>>, rest: seq<Option<Page>>)
    requires Crashes(done)
    ensures Crashes(done + rest)
    ensures Recorded(done + rest) == Recorded(done)
    ensures Directories(done + rest) == Directories(done)
    ensures Saved(done + rest) == Saved(done)
  {
    if rest == [] {
      assert done + rest == done;
    } else {
      CrashIsFinal(done, Init(rest));
      assert Init(done + rest) == done + Init(rest);
    }
  }

  /** Every image URL the parser found on a fetched page, in page and document order. */
  function AllImages(fetched: seq<Option<Page>>): seq<string>
  {
    if fetched == [] then []
    else AllImages(Init(fetched)) + match Last(fetched) case None => [] case Some(page) => page.imageUrls
  }

  /** The manifest is always a prefix of the image URLs the parser found, in discovery
      order, and without a crash it lists all of them. */
  lemma {:induction false} RecordedPrefix(fetched: seq<Option<Page>>)
    ensures Recorded(fetched) <= AllImages(fetched)
    ensures !Crashes(fetched) ==> Recorded(fetched) == AllImages(fetched)
  {
    if fetched != [] {
      var init := Init(fetched);
      RecordedPrefix(init);
      var found := match Last(fetched) case None => [] case Some(page) => page.imageUrls;
      assert AllImages(fetched) == AllImages(init) + found;
      if !Crashes(init) && Last(fetched).Some? && NameAfter(fetched).None? && found != [] {
        assert Recorded(fetched) == AllImages(init) + found[..1];
      }
    }
  }

  /** One save is attempted per recorded URL, in the same order, except for the URL
      recorded just before the crash. */
  lemma {:induction false} SavedFollowsRecorded(fetched: seq<Option<Page>>)
    ensures |Saved(fetched)| + (if Crashes(fetched) then 1 else 0) == |Recorded(fetched)|
    ensures forall i :: 0 <= i < |Saved(fetched)| ==> Saved(fetched)[i].url == Recorded(fetched)[i]
  {
    if fetched != [] {
      var init := Init(fetched);
      SavedFollowsRecorded(init);
      if !Crashes(init) && Last(fetched).Some? && NameAfter(fetched).Some? {
        var page := Last(fetched).value;
        var added := ChapterImages(|fetched|, page.imageUrls, NameAfter(fetched).value);
        assert Saved(fetched) == Saved(init) + added;
        assert Recorded(fetched) == Recorded(init) + page.imageUrls;
        forall i | 0 <= i < |Saved(fetched)| ensures Saved(fetched)[i].url == Recorded(fetched)[i] {
          if i >= |Saved(init)| {
            assert Saved(fetched)[i] == added[i - |Saved(init)|];
          }
        }
      }
    }
  }

  /** `custom_name` is unassigned exactly while no fetched page has yielded a name;
      once assigned it is the last name of the last page that yielded one. */
  lemma {:induction false} NameAfterIsLastName(fetched: seq<Option<Page>>)
    ensures NameAfter(fetched).None? <==>
      forall c :: 0 <= c < |fetched| && fetched[c].Some? ==> fetched[c].value.names == []
    ensures NameAfter(fetched).Some? ==> exists c :: (0 <= c < |fetched| && fetched[c].Some? &&
      fetched[c].value.names != [] && NameAfter(fetched).value == Last(fetched[c].value.names) &&
      forall d :: c < d < |fetched| && fetched[d].Some? ==> fetched[d].value.names == [])
  {
    if fetched != [] {
      var init := Init(fetched);
      var n := |init|;
      NameAfterIsLastName(init);
      assert forall c :: 0 <= c < n ==> init[c] == fetched[c];
      assert Last(fetched) == fetched[n];
      if fetched[n].None? || fetched[n].value.names == [] {
        if NameAfter(init).Some? {
          var c :| 0 <= c < n && init[c].Some? && init[c].value.names != [] &&
            NameAfter(init).value == Last(init[c].value.names) &&
            forall d :: c < d < n && init[d].Some? ==> init[d].value.names == [];
          assert forall d :: c < d < |fetched| && fetched[d].Some? ==> fetched[d].value.names == [];
        }
      }
    }
  }

  /** The run crashes exactly when some fetched page has images while neither it nor any
      page before it has yielded a name. */
  lemma {:induction false} CrashesIffUnnamedImages(fetched: seq<Option<Page>>)
    ensures Crashes(fetched) <==> exists c :: (0 <= c < |fetched| && fetched[c].Some? &&
      fetched[c].value.imageUrls != [] &&
      forall d :: 0 <= d <= c && fetched[d].Some? ==> fetched[d].value.names == [])
  {
    if fetched != [] {
      var init := Init(fetched);
      var n := |init|;
      CrashesIffUnnamedImages(init);
      NameAfterIsLastName(fetched);
      assert forall c :: 0 <= c < n ==> init[c] == fetched[c];
      assert Last(fetched) == fetched[n];
    }
  }

  /** Every directory the run creates is the directory of a chapter whose page was fetched. */
  lemma {:induction false} DirectoriesAreChapters(fetched: seq<Option<Page>>)
    ensures forall i :: 0 <= i < |Directories(fetched)| ==>
      exists k :: 1 <= k <= |fetched| && fetched[k - 1].Some? && Directories(fetched)[i] == ChapterDirectory(k)
  {
    if fetched == [] {
      assert Directories(fetched) == [];
    } else {
      var init := Init(fetched);
      DirectoriesAreChapters(init);
      var before, r := Directories(init), Directories(fetched);
      assert r == before || r == before + [ChapterDirectory(|fetched|)];
      assert Last(fetched).Some? || r == before;
      forall i | 0 <= i < |r|
        ensures exists k :: 1 <= k <= |fetched| && fetched[k - 1].Some? && r[i] == ChapterDirectory(k)
      {
        if i < |before| {
          assert r[i] == before[i];
          var k :| 1 <= k <= |init| && init[k - 1].Some? && before[i] == ChapterDirectory(k);
          assert init[k - 1] == fetched[k - 1];
        } else {
          assert fetched[|fetched| - 1] == Last(fetched);
        }
      }
    }
  }

  /** A run in which every fetched page yields a chapter name never crashes. */
  lemma {:induction false} NamedPagesNeverCrash(fetched: seq<Option<Page>>)
    requires forall c :: 0 <= c < |fetched| && fetched[c].Some? ==> fetched[c].value.names != []
    ensures !Crashes(fetched)
  {
    if fetched != [] {
      var init := Init(fetched);
      assert forall c :: 0 <= c < |init| ==> init[c] == fetched[c];
      NamedPagesNeverCrash(init);
    }
  }

  /** Every saved image lies in the directory of one of the run's chapters. */
  lemma {:induction false} SavedDirectories(fetched: seq<Option<Page>>)
    ensures forall i :: 0 <= i < |Saved(fetched)| ==>
      exists k :: 1 <= k <= |fetched| && fetched[k - 1].Some? && Saved(fetched)[i].directory == ChapterDirectory(k)
  {
    if fetched == [] {
      assert Saved(fetched) == [];
    } else {
      var init := Init(fetched);
      SavedDirectories(init);
      var before, r := Saved(init), Saved(fetched);
      forall i | 0 <= i < |r|
        ensures exists k :: 1 <= k <= |fetched| && fetched[k - 1].Some? && r[i].directory == ChapterDirectory(k)
      {
        if r == before || i < |before| {
          assert r[i] == before[i] by {
            if r != before {
              var added := ChapterImages(|fetched|, Last(fetched).value.imageUrls, NameAfter(fetched).value);
              assert r == before + added;
            }
          }
          var k :| 1 <= k <= |init| && init[k - 1].Some? && before[i].directory == ChapterDirectory(k);
          assert init[k - 1] == fetched[k - 1];
        } else {
          var added := ChapterImages(|fetched|, Last(fetched).value.imageUrls, NameAfter(fetched).value);
          assert r == before + added;
          assert r[i] == added[i - |before|];
          assert fetched[|fetched| - 1] == Last(fetched);
        }
      }
    }
  }

  /** The chapter number each saved image's directory carries is one of the run's. */
  lemma SavedChapterNumbers(fetched: seq<Option<Page>>)
    ensures forall i :: 0 <= i < |Saved(fetched)| ==>
      1 <= ChapterOfDirectory(Saved(fetched)[i].directory) <= |fetched|
  {
    SavedDirectories(fetched);
    forall i | 0 <= i < |Saved(fetched)|
      ensures 1 <= ChapterOfDirectory(Saved(fetched)[i].directory) <= |fetched|
    {
      var k :| 1 <= k <= |fetched| && fetched[k - 1].Some? && Saved(fetched)[i].directory == ChapterDirectory(k);
      ChapterOfChapterDirectory(k);
    }
  }

  /** No image file of a run overwrites another: the (directory, file name) pairs of all
      saves are pairwise distinct. */
  lemma {:induction false} NoOverwrites(fetched: seq<Option<Page>>)
    ensures forall i, j :: 0 <= i < j < |Saved(fetched)| ==>
      Saved(fetched)[i].directory != Saved(fetched)[j].directory ||
      Saved(fetched)[i].filename != Saved(fetched)[j].filename
  {
    if fetched != [] {
      var init := Init(fetched);
      NoOverwrites(init);
      if Saved(fetched) != Saved(init) {
        SavedChapterNumbers(init);
        ChapterOfChapterDirectory(|fetched|);
        DistinctAfterChapter(Saved(init), |fetched|, Last(fetched).value.imageUrls, NameAfter(fetched).value);
      }
    }
  }

  /** Appending one chapter's images to saves from earlier chapters keeps them distinct. */
  lemma DistinctAfterChapter(earlier: seq<SavedImage>, chapter: nat, urls: seq<string>, name: string)
    requires forall i, j :: 0 <= i < j < |earlier| ==>
      earlier[i].directory != earlier[j].directory || earlier[i].filename != earlier[j].filename
    requires forall i :: 0 <= i < |earlier| ==> ChapterOfDirectory(earlier[i].directory) < chapter
    requires ChapterOfDirectory(ChapterDirectory(chapter)) == chapter
    ensures var all := earlier + ChapterImages(chapter, urls, name);
      forall i, j :: 0 <= i < j < |all| ==> all[i].directory != all[j].directory || all[i].filename != all[j].filename
  {
    var added := ChapterImages(chapter, urls, name);
    var all := earlier + added;
    var n := |earlier|;
    forall i, j | 0 <= i < j < |all|
      ensures all[i].directory != all[j].directory || all[i].filename != all[j].filename
    {
      if j >= n {
        assert all[j] == added[j - n];
        assert added[j - n].directory == ChapterDirectory(chapter);
        if i >= n {
          assert all[i] == added[i - n];
          ImageFilenamesDistinct(name, i - n, j - n);
        } else {
          assert all[i] == earlier[i];
        }
      } else {
        assert all[i] == earlier[i] && all[j] == earlier[j];
      }
    }
  }
}
