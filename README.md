# Manhwa-Scraper, the deterministic core in Dafny

Manhwa-Scraper visits the pages of one webcomic series in order. For each page it
renders the HTML in a headless browser and finds the panel images. It records every
image URL in a `links.csv` manifest and saves each image as a `.webp` file in one
directory per chapter. This project models the parts of `main.py` that do not call
a library:

- the filename sanitiser `sanitize_filename`: the method `Sanitize.SanitizeFilename`
  keeps the source's loop of one `replace` per forbidden character;
- the chapter URL enumerator `get_website_urls`: `Chapters.GetWebsiteUrls`;
- the manifest writer `CSVManager`: a class whose `file` field holds the text written
  to `links.csv`;
- the naming rules of `main`. The chapter directory name comes from the URL
  (`Naming.DirectoryName`). The chapter name is the last name the name parser yields
  (`Naming.LastName`). Each image's name is `"{name} - {index:02}"`
  (`Naming.ImageName`);
- the choice of output file name in `get_and_save_image_to_file`
  (`Naming.OutputFilename`);
- the `main` loop itself (`Scraper.Run`, with one pass of the chapter loop in
  `Scraper.VisitChapter` and the image loop in `Scraper.SaveImages`). It takes the browser's
  result for each chapter as input, along with the names and image URLs the two
  parsers yield for it. It returns the manifest text, the directories created, every
  image save it attempts, and whether the run ended normally or with an uncaught
  Python exception.

The Python string methods used by these expressions are modelled in `PyStr`:
`replace`, `split`, `split(sep, 1)` and `title`. `PyStr.Join` (`str.join`, which
`main.py` never calls) is there only to state what `split` returns, through the
lemmas `JoinSplit` and `SplitJoin`. `Decimal` models the rendering of numbers (`{p}`
and `{index:02}`).

Some behaviour of the code is easy to miss, and the model keeps it:

- `custom_name` is the loop variable of `for custom_name in parse_and_get_name(...)`.
  It is never reset between chapters. A page that yields no name therefore names its
  images after the previous chapter (`Scraper.NameAfter`).
- If no name was ever yielded when a chapter has images, line 137 raises
  `UnboundLocalError`. This happens after the first image URL has already been
  written to the manifest (`Scraper.Recorded`, `Scraper.SaveImages`). The exception
  ends the run, and the `with` block closes the file first.
- `main` always passes a non-empty custom name, because `" - "` and the two or more
  digits of `{index:02}` are appended. The
  content-hash branch of the file-name choice is therefore never taken from `main`
  (`Naming.ImageFilenameIgnoresDigest`).
- A URL goes into the manifest before the image is fetched. An image whose download
  or encoding fails is still listed, so the manifest lists every image URL found on
  the fetched pages, not only the images that were saved (`Scraper.RecordedPrefix`).
- The directory name is derived from the URL by `replace('-', ' ').title()`, so for
  every enumerated URL it is `Myst Might Mayhem Chapter {p}`
  (`Naming.DirectoryNameOfChapter`).

## Model

| member | source | states |
|---|---|---|
| `Sanitize.SanitizeFilename` | main.py:82-89 | the loop of one `replace(char, " ")` per forbidden-list entry returns `Sanitized(filename)`; its invariant says none of the first k forbidden characters remains after k passes |
| `Sanitize.Sanitized` | main.py:84-87 | the reference definition of sanitising preserves length |
| `Sanitize.SanitizedAt` | main.py:86-87 | position i of the result is a space if the input character there is forbidden, and the input character otherwise |
| `Sanitize.SanitizedIsClean` | main.py:84-89 | none of the ten forbidden characters (backslash, slash, colon, asterisk, question mark, double quote, less-than, greater-than, vertical bar, single quote) remains in the result |
| `Sanitize.SanitizedIdentity` | main.py:82-89 | sanitising leaves a string unchanged if and only if it has no forbidden character |
| `Sanitize.SanitizedIdempotent` | main.py:82-89 | sanitising twice equals sanitising once |
| `Sanitize.SanitizedAppend` | main.py:86-87 | sanitising distributes over concatenation |
| `PyStr.Replace` | main.py:87 | `str.replace` with one-character arguments preserves length |
| `PyStr.ReplaceAt` | main.py:87 | every `from` becomes `to`, and every other character stays in place |
| `PyStr.ReplaceAppend` | main.py:131 | replacing distributes over concatenation |
| `PyStr.ReplaceAbsent` | main.py:131 | text without the replaced character is unchanged |
| `PyStr.ReplaceWord` | main.py:131 | in `word + from + rest`, where `word` has no `from`, only the separator and `rest` change |
| `PyStr.Split` | main.py:131 | `str.split(sep)` yields at least one piece, and no piece contains the separator |
| `PyStr.JoinSplit` | main.py:131 | joining the pieces of a split with the separator gives back the string |
| `PyStr.SplitJoin` | main.py:131 | splitting separator-free pieces that were joined gives back the pieces |
| `PyStr.SplitPrefix` | main.py:131 | a separator-free prefix becomes part of the first piece |
| `PyStr.SplitAppend` | main.py:131 | splitting `a + sep + b` gives the pieces of `a` followed by the pieces of `b` |
| `PyStr.SplitOnce` | main.py:131 | `split(sep, 1)` gives one piece exactly when `sep` is absent; otherwise it gives the text before the first `sep` and the text after it |
| `PyStr.SplitOnceAt` | main.py:131 | `split(sep, 1)` of `head + sep + tail`, where `head` has no `sep`, is `[head, tail]` |
| `PyStr.ToUpper` | main.py:131 | a lower-case ASCII letter becomes the upper-case letter of the same position in the alphabet, which lower-cases back to it; every other character is unchanged |
| `PyStr.ToLower` | main.py:131 | an upper-case ASCII letter becomes the lower-case letter of the same position in the alphabet; every other character is unchanged |
| `PyStr.Title` | main.py:131 | `str.title` preserves length |
| `PyStr.TitleAt` | main.py:131 | a letter is upper-cased when the character before it is not a letter, and lower-cased otherwise; every other character stays |
| `PyStr.TitleFromAt` | main.py:131 | the same position-wise rule, for title-casing that continues after a known character |
| `PyStr.TitleIdempotent` | main.py:131 | title-casing twice equals title-casing once |
| `PyStr.TitleFromUncased` | main.py:131 | text with no letters (the chapter number) is unchanged |
| `PyStr.TitleWord` | main.py:131 | a lower-case word followed by a space comes out capitalised |
| `PyStr.TitleLowerRun` | main.py:131 | lower-case letters that follow a letter stay lower case up to the next non-letter |
| `Decimal.NatToDecimal` | main.py:122 | `str(n)` is a non-empty string of digits with no leading zero, and has one digit exactly when n < 10 |
| `Decimal.DecimalRoundTrip` | main.py:122 | reading `str(n)` back as a decimal number gives n |
| `Decimal.NatToDecimalInjective` | main.py:122 | different numbers have different renderings |
| `Decimal.NatToDecimalLength` | main.py:137 | numbers below 100 have at most two digits, and larger ones at least three |
| `Decimal.Pad2` | main.py:137 | `{index:02}` has at least two digits, reads back as `index`, has exactly two digits when index < 100, and has no leading zero when it is longer |
| `Chapters.ChapterUrl` | main.py:122 | the URL of chapter p starts with the fixed template text, ends in `/`, and holds only digits in between |
| `Chapters.GetWebsiteUrls` | main.py:119-122 | it yields exactly max(chapters, 0) URLs, and the i-th is the template with chapter number i + 1 |
| `Chapters.ChapterNumberOfUrl` | main.py:122 | the chapter number can be read back from the URL the template produces |
| `Chapters.WebsiteUrlsWellFormed` | main.py:119-122 | every URL ends in `/`, and no two chapters share a URL |
| `Manifest.CSVManager.constructor` | main.py:19-20 | the manager stores the file name and has written nothing |
| `Manifest.CSVManager.Enter` | main.py:22-26 | the file is truncated and then holds exactly `links\n`; it is open |
| `Manifest.CSVManager.SaveUrlToCsv` | main.py:32-34 | `url + "\n"` is appended and all earlier text is kept, so the file is still the header followed by the saved URLs in call order |
| `Manifest.CSVManager.Exit` | main.py:28-30 | the file is closed and its text stays as written |
| `Manifest.BodyAppend` | main.py:34 | recording one more URL appends its line after all earlier lines |
| `Manifest.LinesCons` | main.py:34 | a text that starts with a newline-free line and a newline reads as that line followed by the lines of the rest |
| `Manifest.BodyLines` | main.py:34 | the URL lines read back as the URLs, provided no URL contains a newline |
| `Manifest.ManifestLines` | main.py:25-34 | the manifest reads back as the line `links` followed by one line per URL, in call order |
| `Naming.DirectoryName` | main.py:131 | the only exception the directory-name expression can raise is `IndexError`, and a URL without `/` always raises it |
| `Naming.DirectoryNameOfSegment` | main.py:131 | for a URL ending in `/`, the directory name is the title-cased, dash-to-space form of the last segment's text after its first `-`; a segment without `-` gives `IndexError` |
| `Naming.DirectoryNameOfChapter` | main.py:122-131 | every enumerated URL yields the directory `Myst Might Mayhem Chapter {p}` without an error |
| `Naming.ChapterWords` | main.py:131 | `replace('-', ' ').title()` turns `myst-might-mayhem-chapter-{p}` into `Myst Might Mayhem Chapter {p}` |
| `Naming.DashesToSpaces` | main.py:131 | `replace('-', ' ')` turns the dashes between words into spaces |
| `Naming.CapitalizeWords` | main.py:131 | `title()` capitalises each lower-case word and leaves the digits alone |
| `Naming.ChapterOfChapterDirectory` | main.py:131 | the chapter number can be read back from a chapter's directory name, so each chapter gets its own directory |
| `Naming.LastName` | main.py:133-134 | after `for custom_name in names: pass` the name is the last one yielded; if nothing is yielded it is the earlier value |
| `Naming.ImageName` | main.py:137 | `f"{name} - {index:02}"` is `name`, then ` - `, then exactly the zero-padded index `Pad2(index)` |
| `Naming.Truthy` | main.py:99 | a custom file name counts exactly when it is neither `None` nor the empty string |
| `Naming.OutputFilename` | main.py:99-104 | the result ends in `.webp`; with a truthy custom name its base is the sanitised name; otherwise its base is the first 10 characters of the hex digest (fewer if the digest is shorter) |
| `Naming.OutputFilenameIsClean` | main.py:99-104 | for a hex digest, the file name contains no forbidden path character |
| `Naming.ImageFilenameIsClean` | main.py:101-102 | the file name of an image is eight characters longer than the chapter name and the padded index together, ends in `.webp`, and holds no forbidden path character |
| `Naming.ImageFilenameIgnoresDigest` | main.py:99-102 | the per-image name from `main` is never empty, so the file name is `sanitize(name) + ".webp"` whatever the digest |
| `Naming.ImageFilenameParts` | main.py:101-102 | sanitising the per-image name changes only the chapter-name part |
| `Naming.ImageFilenamesDistinct` | main.py:135-137 | two images of one chapter never get the same file name |
| `Scraper.Run` | main.py:125-146 | it returns the manifest text, the directories, the attempted saves, and the outcome given by the per-chapter specification (`NameAfter`, `Crashes`, `Recorded`, `Directories`, `Saved`), including the `UnboundLocalError` crash |
| `Scraper.VisitChapter` | main.py:129-144 | one pass of the chapter loop extends the name, the crash state, the manifest, the directories and the saves exactly as the per-chapter specification says for one more chapter |
| `Scraper.SaveImages` | main.py:135-140 | the URLs are recorded in order; image `index` is saved in the chapter directory under the sanitised `"{name} - {index:02}"` plus `.webp` (`ChapterImages`); with no name, the run crashes right after the first URL is recorded |
| `Scraper.ChapterImages` | main.py:135-140 | one save for each image URL of the chapter |
| `Scraper.ChapterStep` | main.py:128-140 | how one more chapter extends the name, the crash state, the manifest, the directories and the saves |
| `Scraper.CrashIsFinal` | main.py:127-146 | after the exception nothing more is recorded, created or saved |
| `Scraper.NameAfterIsLastName` | main.py:133-134 | `custom_name` (`NameAfter`) is unassigned exactly while no fetched page has yielded a name; once assigned it is the last name of the last page that yielded one |
| `Scraper.CrashesIffUnnamedImages` | main.py:133-137 | the run crashes (`Crashes`) exactly when some fetched page has images while neither it nor any earlier page has yielded a name |
| `Scraper.RecordedPrefix` | main.py:128-136 | the manifest's URLs (`Recorded`) are always a prefix of all image URLs found on the fetched pages, in discovery order, and without a crash they are all of them |
| `Scraper.SavedFollowsRecorded` | main.py:135-140 | one save (`Saved`) is attempted per recorded URL, in the same order, except for the URL recorded just before the crash |
| `Scraper.DirectoriesAreChapters` | main.py:129-132 | every directory created (`Directories`) is the directory of a chapter whose page was fetched |
| `Scraper.NamedPagesNeverCrash` | main.py:133-137 | if every fetched page yields a chapter name, the run does not crash |
| `Scraper.SavedDirectories` | main.py:131-140 | every save goes into `ChapterDirectory(k)` for a chapter k of the run whose page was fetched |
| `Scraper.SavedChapterNumbers` | main.py:131-140 | the chapter number read back from every save's directory is one of the run's chapter numbers |
| `Scraper.DistinctAfterChapter` | main.py:135-140 | one chapter's images never share a directory and file name with images of earlier chapters |
| `Scraper.NoOverwrites` | main.py:125-146 | within a run, no two image saves share a directory and file name |

## Left out

- `get_content_from_url` (main.py:37-50) runs an Edge browser session. Its result is the `fetched` input of `Scraper.Run`. An empty page and `None` are both `None`, the falsy content that `main` skips.
- `parse_image_urls` and `parse_and_get_name` (main.py:53-78) are BeautifulSoup queries. Their outputs are the `imageUrls` and `names` of each `Page`. The early stop on a parse error is part of those inputs.
- `requests.get`, `PIL.Image.open/convert/save` and the WebP quality of 95 (main.py:95-107) are network and codec calls. `Scraper.SavedImage` records each call of `get_and_save_image_to_file`. Whether the write succeeded is not modelled: the source logs any failure and carries on, so the rest of the run does not depend on it.
- The SHA-1 digest (main.py:104) is a cryptographic library call. It is the `hexDigest` parameter of `Naming.OutputFilename`.
- `Path.mkdir` (main.py:132), the real file handle, `logging` and `print` (main.py:138, 146) are file-system and console effects. The model keeps only the directory names and the text written to `links.csv`.
- The module-level `main(2)` call (main.py:151) and the default argument `chapters=1` are entry glue. `Scraper.Run` takes the chapter count as a parameter.
- `PyStr.Title`: only ASCII letters are cased. Python also title-cases non-ASCII letters. The model leaves them unchanged and also treats them as uncased, so the next ASCII letter is upper-cased: Python gives `"caféx".title() == "Caféx"`, the model gives `"CaféX"`. The chapter directory names contain only ASCII.
- `PyStr.Replace`, `PyStr.Split`, `PyStr.SplitOnce`: only one-character arguments are modelled, which is all `main.py` uses.
- `Manifest.CSVManager.SaveUrlToCsv`: it requires an open file. Python raises if `save_url_to_csv` is called before `__enter__` or after `__exit__`, and `main` never does either. The UTF-8 encoding of the file is not modelled: the file is a sequence of characters.
- The file is opened in text mode (main.py:24), so on a platform whose line separator is not `\n` each written `"\n"` reaches the disk as `os.linesep`. `Manifest.CSVManager.file` holds the text as written, before that translation.
- `Manifest.CSVManager.Exit`: it requires that the manager was entered. Python raises `AttributeError` otherwise.
- Directory-creation failures are fatal in the source. They come from the file system, so they are not modelled.
