/**
 * The Python `str` methods that main.py applies, for one-character separators
 * and ASCII text: `replace`, `split`, `split(sep, 1)`, `join` and `title`.
 */
module PyStr {

  /** `s.replace(from, to)` for single characters. */
  function Replace(s: string, from: char, to: char): (r: string)
    ensures |r| == |s|
  {
    if s == [] then [] else [if s[0] == from then to else s[0]] + Replace(s[1..], from, to)
  }

  /** Every `from` becomes `to`; every other character stays where it was. */
  lemma {:induction false} ReplaceAt(s: string, from: char, to: char, i: nat)
    requires i < |s|
    ensures Replace(s, from, to)[i] == if s[i] == from then to else s[i]
  {
    if i > 0 { ReplaceAt(s[1..], from, to, i - 1); }
  }

  /** Replacing distributes over concatenation. */
  lemma {:induction false} ReplaceAppend(a: string, b: string, from: char, to: char)
    ensures Replace(a + b, from, to) == Replace(a, from, to) + Replace(b, from, to)
  {
    if a == [] {
      assert a + b == b;
    } else {
      assert (a + b)[1..] == a[1..] + b;
      ReplaceAppend(a[1..], b, from, to);
    }
  }

  /** Text without `from` is left as it is. */
  lemma {:induction false} ReplaceAbsent(s: string, from: char, to: char)
    requires from !in s
    ensures Replace(s, from, to) == s
  {
    if s != [] { ReplaceAbsent(s[1..], from, to); }
  }

  /** `word + from + rest`, with no `from` in `word`, becomes `word + to + rest'`. */
  lemma ReplaceWord(word: string, rest: string, from: char, to: char)
    requires from !in word
    ensures Replace(word + [from] + rest, from, to) == word + [to] + Replace(rest, from, to)
  {
    ReplaceAppend(word + [from], rest, from, to);
    ReplaceAppend(word, [from], from, to);
    ReplaceAbsent(word, from, to);
  }

  /** `sep.join(parts)` */
  function Join(parts: seq<string>, sep: char): string
    requires |parts| >= 1
  {
    if |parts| == 1 then parts[0] else parts[0] + [sep] + Join(parts[1..], sep)
  }

  /** `s.split(sep)`: every piece between separators, empty pieces included. */
  function Split(s: string, sep: char): (parts: seq<string>)
    ensures |parts| >= 1
    ensures forall k :: 0 <= k < |parts| ==> sep !in parts[k]
  {
    if s == [] then [""]
    else
      var rest := Split(s[1..], sep);
      if s[0] == sep then [""] + rest
      else [[s[0]] + rest[0]] + rest[1..]
  }

  /** Joining the pieces of a split gives back the string. */
  lemma {:induction false} JoinSplit(s: string, sep: char)
    ensures Join(Split(s, sep), sep) == s
  {
    if s != [] {
      var rest := Split(s[1..], sep);
      JoinSplit(s[1..], sep);
      if s[0] != sep && |rest| > 1 {
        assert Split(s, sep)[1..] == rest[1..];
      }
    }
  }

  lemma {:induction false} SplitPrefix(a: string, t: string, sep: char)
    requires sep !in a
    ensures Split(a + t, sep) == [a + Split(t, sep)[0]] + Split(t, sep)[1..]
  {
    if a != [] {
      assert (a + t)[1..] == a[1..] + t;
      SplitPrefix(a[1..], t, sep);
      assert [a[0]] + (a[1..] + Split(t, sep)[0]) == a + Split(t, sep)[0];
    } else {
      var st := Split(t, sep);
      assert a + t == t && a + st[0] == st[0];
      assert st == [st[0]] + st[1..];
    }
  }

  /** Splitting pieces that were joined gives back the pieces. */
  lemma {:induction false} SplitJoin(parts: seq<string>, sep: char)
    requires |parts| >= 1
    requires forall k :: 0 <= k < |parts| ==> sep !in parts[k]
    ensures Split(Join(parts, sep), sep) == parts
  {
    if |parts| == 1 {
      SplitPrefix(parts[0], [], sep);
      assert parts[0] + [] == parts[0];
    } else {
      var tail := [sep] + Join(parts[1..], sep);
      assert Join(parts, sep) == parts[0] + tail;
      SplitPrefix(parts[0], tail, sep);
      SplitJoin(parts[1..], sep);
      assert tail[1..] == Join(parts[1..], sep);
      assert Split(tail, sep) == [""] + parts[1..];
      assert parts[0] + "" == parts[0];
      assert parts == [parts[0]] + parts[1..];
    }
  }

  /** Splitting at a separator splits both sides independently. */
  lemma {:induction false} SplitAppend(a: string, b: string, sep: char)
    ensures Split(a + [sep] + b, sep) == Split(a, sep) + Split(b, sep)
  {
    if a == [] {
      assert a + [sep] + b == [sep] + b;
      assert ([sep] + b)[1..] == b;
    } else {
      assert (a + [sep] + b)[1..] == a[1..] + [sep] + b;
      SplitAppend(a[1..], b, sep);
    }
  }

  /** `s.split(sep, 1)`: the text before the first separator and the text after it. */
  function SplitOnce(s: string, sep: char): (parts: seq<string>)
    ensures 1 <= |parts| <= 2
    ensures |parts| == 1 <==> sep !in s
    ensures |parts| == 1 ==> parts[0] == s
    ensures |parts| == 2 ==> sep !in parts[0] && s == parts[0] + [sep] + parts[1]
  {
    if s == [] then [""]
    else if s[0] == sep then ["", s[1..]]
    else
      var rest := SplitOnce(s[1..], sep);
      [[s[0]] + rest[0]] + rest[1..]
  }

  /** `split(sep, 1)` cuts at the first separator. */
  lemma SplitOnceAt(head: string, tail: string, sep: char)
    requires sep !in head
    ensures SplitOnce(head + [sep] + tail, sep) == [head, tail]
  {
    var s := head + [sep] + tail;
    var parts := SplitOnce(s, sep);
    assert s[|head|] == sep;
    assert forall i :: 0 <= i < |head| ==> s[i] == head[i] && s[i] != sep;
    assert forall i :: 0 <= i < |parts[0]| ==> s[i] == parts[0][i] && s[i] != sep;
    assert s[|parts[0]|] == sep;
    assert |parts[0]| == |head|;
    assert parts[0] == s[..|head|] == head;
    assert parts[1] == s[|head| + 1..] == tail;
  }

  predicate IsUpper(c: char) { 'A' <= c <= 'Z' }
  predicate IsLower(c: char) { 'a' <= c <= 'z' }
  /** A cased character; only ASCII letters are modelled. */
  predicate IsCased(c: char) { IsUpper(c) || IsLower(c) }

  function ToUpper(c: char): (u: char)
    ensures IsCased(u) == IsCased(c) && (IsCased(c) ==> IsUpper(u))
    ensures !IsLower(c) ==> u == c
    ensures IsLower(c) ==> u as int - 'A' as int == c as int - 'a' as int && ToLower(u) == c
  {
    if IsLower(c) then (c as int - 32) as char else c
  }

  function ToLower(c: char): (l: char)
    ensures IsCased(l) == IsCased(c) && (IsCased(c) ==> IsLower(l))
    ensures !IsUpper(c) ==> l == c
    ensures IsUpper(c) ==> l as int - 'a' as int == c as int - 'A' as int
  {
    if IsUpper(c) then (c as int + 32) as char else c
  }

  /** `title` continued after a character that was (or was not) cased. */
  function TitleFrom(s: string, prevCased: bool): (r: string)
    ensures |r| == |s|
  {
    if s == [] then []
    else
      var c := s[0];
      [if !IsCased(c) then c else if prevCased then ToLower(c) else ToUpper(c)]
        + TitleFrom(s[1..], IsCased(c))
  }

  /** `s.title()` */
  function Title(s: string): (r: string)
    ensures |r| == |s|
  {
    TitleFrom(s, false)
  }

  /** What `title` does at position i: a cased character is upper-cased when it starts
      a run of cased characters and lower-cased otherwise; any other character stays. */
  function TitleCharAt(s: string, i: nat, prevCased: bool): char
    requires i < |s|
  {
    var before := if i == 0 then prevCased else IsCased(s[i - 1]);
    if !IsCased(s[i]) then s[i] else if before then ToLower(s[i]) else ToUpper(s[i])
  }

  lemma {:induction false} TitleFromAt(s: string, prevCased: bool, i: nat)
    requires i < |s|
    ensures TitleFrom(s, prevCased)[i] == TitleCharAt(s, i, prevCased)
  {
    if i > 0 {
      TitleFromAt(s[1..], IsCased(s[0]), i - 1);
    }
  }

  lemma TitleAt(s: string, i: nat)
    requires i < |s|
    ensures Title(s)[i] == TitleCharAt(s, i, false)
  {
    TitleFromAt(s, false, i);
  }

  /** Title-casing a title-cased string changes nothing. */
  lemma TitleIdempotent(s: string)
    ensures Title(Title(s)) == Title(s)
  {
    var t := Title(s);
    forall i | 0 <= i < |s| ensures Title(t)[i] == t[i] {
      TitleAt(s, i);
      TitleAt(t, i);
      if i > 0 { TitleAt(s, i - 1); }
    }
  }

  /** Text without cased characters is left as it is. */
  lemma {:induction false} TitleFromUncased(s: string, prevCased: bool)
    requires forall i :: 0 <= i < |s| ==> !IsCased(s[i])
    ensures TitleFrom(s, prevCased) == s
  {
    if s != [] { TitleFromUncased(s[1..], false); }
  }

  /** A lower-case word followed by a space comes out capitalised. */
  lemma TitleWord(w: string, rest: string)
    requires |w| >= 1 && forall i :: 0 <= i < |w| ==> IsLower(w[i])
    ensures TitleFrom(w + " " + rest, false) == [ToUpper(w[0])] + w[1..] + " " + TitleFrom(rest, false)
  {
    assert (w + " " + rest)[1..] == w[1..] + " " + rest;
    TitleLowerRun(w[1..], " " + rest);
    assert w[1..] + " " + rest == w[1..] + (" " + rest);
  }

  lemma {:induction false} TitleLowerRun(v: string, rest: string)
    requires forall i :: 0 <= i < |v| ==> IsLower(v[i])
    requires rest != [] && !IsCased(rest[0])
    ensures TitleFrom(v + rest, true) == v + [rest[0]] + TitleFrom(rest[1..], false)
  {
    if v == [] {
      assert v + rest == rest;
    } else {
      assert (v + rest)[1..] == v[1..] + rest;
      TitleLowerRun(v[1..], rest);
    }
  }
}
