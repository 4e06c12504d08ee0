/** `CSVManager`: the `links.csv` manifest, modelled as the text written to the file. */
module Manifest {
  import opened PyStr

  const Header: string := "links\n"

  /** One line per URL, in order. */
  function Body(urls: seq<string>): string
  {
    if urls == [] then "" else urls[0] + "\n" + Body(urls[1..])
  }

  /** The text of a manifest that has recorded `urls`, in that order. */
  function ManifestText(urls: seq<string>): string
  {
    Header + Body(urls)
  }

  /** Recording one more URL appends its line and keeps everything before it. */
  lemma {:induction false} BodyAppend(urls: seq<string>, url: string)
    ensures Body(urls + [url]) == Body(urls) + url + "\n"
  {
    if urls == [] {
      assert urls + [url] == [url];
    } else {
      assert (urls + [url])[1..] == urls[1..] + [url];
      BodyAppend(urls[1..], url);
    }
  }

  /** A text read as lines: cut at every newline; text after the last newline is a last line. */
  function Lines(s: string): seq<string>
    decreases |s|
  {
    if s == [] then []
    else
      var parts := SplitOnce(s, '\n');
      if |parts| == 1 then [s] else [parts[0]] + Lines(parts[1])
  }

  lemma LinesCons(line: string, rest: string)
    requires '\n' !in line
    ensures Lines(line + "\n" + rest) == [line] + Lines(rest)
  {
    SplitOnceAt(line, rest, '\n');
  }

  /** The manifest file reads back as the header line followed by one line per URL,
      in call order, provided no URL holds a newline. */
  lemma {:induction false} ManifestLines(urls: seq<string>)
    requires forall k :: 0 <= k < |urls| ==> '\n' !in urls[k]
    ensures Lines(ManifestText(urls)) == ["links"] + urls
  {
    BodyLines(urls);
    assert ManifestText(urls) == "links" + "\n" + Body(urls);
    LinesCons("links", Body(urls));
  }

  lemma {:induction false} BodyLines(urls: seq<string>)
    requires forall k :: 0 <= k < |urls| ==> '\n' !in urls[k]
    ensures Lines(Body(urls)) == urls
  {
    if urls != [] {
      BodyLines(urls[1..]);
      LinesCons(urls[0], Body(urls[1..]));
    }
  }

  class CSVManager {
    var filename: string
    /** What has been written to the file so far. */
    var file: string
    var entered: bool
    var isOpen: bool
    /** The URLs saved since the file was opened. */
    ghost var Urls: seq<string>

    ghost predicate Valid()
      reads this
    {
      (entered ==> file == ManifestText(Urls)) &&
      (!entered ==> file == "" && Urls == [] && !isOpen)
    }

    /** `CSVManager(filename)`: nothing is opened yet. */
    constructor (filename: string)
      ensures Valid() && this.filename == filename && !entered && file == ""
    {
      this.filename := filename;
      file := "";
      entered, isOpen := false, false;
      Urls := [];
    }

    /** `__enter__`: opens (truncating) the file and writes the header line. */
    method Enter()
      modifies this
      ensures Valid() && entered && isOpen
      ensures file == Header && Urls == [] && filename == old(filename)
    {
      file := Header;
      entered, isOpen := true, true;
      Urls := [];
    }

    /** `save_url_to_csv`: appends the URL and a newline; earlier text is untouched. */
    method SaveUrlToCsv(url: string)
      requires Valid() && isOpen
      modifies this`file, this`Urls
      ensures Valid()
      ensures file == old(file) + url + "\n"
      ensures Urls == old(Urls) + [url]
    {
      BodyAppend(Urls, url);
      file := file + url + "\n";
      Urls := Urls + [url];
    }

    /** `__exit__`: closes the file; its text stays as written. */
    method Exit()
      requires Valid() && entered
      modifies this`isOpen
      ensures Valid() && !isOpen
    {
      isOpen := false;
    }
  }
}
