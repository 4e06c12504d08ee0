/** `sanitize_filename`: forbidden path characters become spaces. */
module Sanitize {
  import opened PyStr

  /** The characters main.py forbids, in its order; `*` is listed twice, which changes nothing. */
  const ForbiddenChars: seq<char> := ['\\', '/', ':', '*', '?', '"', '<', '>', '|', '\'', '*']

  predicate IsForbidden(c: char) { c in ForbiddenChars }

  /** Reference definition: each forbidden character becomes a space, all others stay. */
  function Sanitized(s: string): (r: string)
    ensures |r| == |s|
  {
    if s == [] then [] else [if IsForbidden(s[0]) then ' ' else s[0]] + Sanitized(s[1..])
  }

  lemma {:induction false} SanitizedAt(s: string, i: nat)
    requires i < |s|
    ensures Sanitized(s)[i] == if IsForbidden(s[i]) then ' ' else s[i]
  {
    if i > 0 { SanitizedAt(s[1..], i - 1); }
  }

  /** No forbidden character survives. */
  lemma {:induction false} SanitizedIsClean(s: string)
    ensures forall i :: 0 <= i < |Sanitized(s)| ==> !IsForbidden(Sanitized(s)[i])
  {
    forall i | 0 <= i < |s| ensures !IsForbidden(Sanitized(s)[i]) { SanitizedAt(s, i); }
  }

  /** Sanitizing leaves a string unchanged exactly when it has no forbidden character. */
  lemma {:induction false} SanitizedIdentity(s: string)
    ensures Sanitized(s) == s <==> forall i :: 0 <= i < |s| ==> !IsForbidden(s[i])
  {
    if Sanitized(s) == s { SanitizedIsClean(s); }
    if forall i :: 0 <= i < |s| ==> !IsForbidden(s[i]) {
      forall i | 0 <= i < |s| ensures Sanitized(s)[i] == s[i] { SanitizedAt(s, i); }
    }
  }

  /** Sanitizing twice is sanitizing once. */
  lemma {:induction false} SanitizedIdempotent(s: string)
    ensures Sanitized(Sanitized(s)) == Sanitized(s)
  {
    SanitizedIsClean(s);
    SanitizedIdentity(Sanitized(s));
  }

  /** Sanitizing works character by character, so it distributes over concatenation. */
  lemma SanitizedAppend(a: string, b: string)
    ensures Sanitized(a + b) == Sanitized(a) + Sanitized(b)
  {
    var l, r := Sanitized(a + b), Sanitized(a) + Sanitized(b);
    forall i | 0 <= i < |l| ensures l[i] == r[i] {
      SanitizedAt(a + b, i);
      if i < |a| { SanitizedAt(a, i); } else { SanitizedAt(b, i - |a|); }
    }
  }

  /** main.py's loop: one `replace(char, " ")` per entry of the forbidden list. */
  method SanitizeFilename(filename: string) returns (result: string)
    ensures result == Sanitized(filename)
  {
    result := filename;
    for k := 0 to |ForbiddenChars|
      invariant |result| == |filename|
      invariant forall i :: 0 <= i < |filename| ==>
        result[i] == if filename[i] in ForbiddenChars[..k] then ' ' else filename[i]
      // after k passes none of the first k forbidden characters occurs
      invariant forall j :: 0 <= j < k ==> ForbiddenChars[j] !in result
    {
      var before := result;
      result := Replace(result, ForbiddenChars[k], ' ');
      forall i | 0 <= i < |result| ensures result[i] == if before[i] == ForbiddenChars[k] then ' ' else before[i] {
        ReplaceAt(before, ForbiddenChars[k], ' ', i);
      }
      assert ForbiddenChars[..k + 1] == ForbiddenChars[..k] + [ForbiddenChars[k]];
    }
    assert ForbiddenChars[..|ForbiddenChars|] == ForbiddenChars;
    forall i | 0 <= i < |filename| ensures result[i] == Sanitized(filename)[i] {
      SanitizedAt(filename, i);
    }
  }
}
