/**
 The cookie reader of the bootstrap script: given the (already URL-decoded)
 cookie header and a cookie name, it returns the value of the first
 `;`-separated segment that, once its leading spaces are stripped, starts
 with `name=`; the empty string stands for "not found".
 */
module Cookie {

  /** The character the cookie header is split on. */
  const Separator: char := ';'

  /* ---------------------------------------------------------------------
     Splitting on a separator, with the semantics of JavaScript's
     `String.prototype.split` on a one-character string: there is always at
     least one part, `""` splits into `[""]`, and adjacent or trailing
     separators produce empty parts.
     --------------------------------------------------------------------- */

  function Split(s: string, sep: char): (parts: seq<string>)
    ensures |parts| >= 1
    ensures forall i :: 0 <= i < |parts| ==> sep !in parts[i]
    decreases |s|
  {
    if |s| == 0 then [""]
    else
      var rest := Split(s[1..], sep);
      if s[0] == sep then [""] + rest
      else [[s[0]] + rest[0]] + rest[1..]
  }

  /** Glues parts back together, one separator between each two. */
  function Join(parts: seq<string>, sep: char): string
    requires |parts| >= 1
    decreases |parts|
  {
    if |parts| == 1 then parts[0] else parts[0] + [sep] + Join(parts[1..], sep)
  }

  /** Splitting loses nothing: the parts glue back into the original string. */
  lemma {:induction false} SplitThenJoin(s: string, sep: char)
    ensures Join(Split(s, sep), sep) == s
    decreases |s|
  {
    if |s| > 0 {
      var rest := Split(s[1..], sep);
      SplitThenJoin(s[1..], sep);
      if s[0] == sep {
        assert Split(s, sep)[1..] == rest;
        assert [sep] + s[1..] == s;
      } else {
        var parts := Split(s, sep);
        if |rest| == 1 {
          assert parts == [[s[0]] + rest[0]];
        } else {
          assert parts[1..] == rest[1..];
          assert Join(rest, sep) == rest[0] + [sep] + Join(rest[1..], sep);
        }
        assert [s[0]] + s[1..] == s;
      }
    }
  }

  /** A string without the separator is one part. */
  lemma {:induction false} SplitWithoutSeparator(p: string, sep: char)
    requires sep !in p
    ensures Split(p, sep) == [p]
    decreases |p|
  {
    if |p| > 0 {
      assert p[0] in p;
      assert forall k :: 0 <= k < |p[1..]| ==> p[1..][k] == p[k + 1];
      SplitWithoutSeparator(p[1..], sep);
      assert [p[0]] + p[1..] == p;
    }
  }

  /** A separator-free prefix followed by a separator comes out as the first part. */
  lemma {:induction false} SplitAtSeparator(p: string, sep: char, rest: string)
    requires sep !in p
    ensures Split(p + [sep] + rest, sep) == [p] + Split(rest, sep)
    decreases |p|
  {
    var s := p + [sep] + rest;
    if |p| == 0 {
      assert s[0] == sep && s[1..] == rest;
    } else {
      assert p[0] in p;
      assert forall k :: 0 <= k < |p[1..]| ==> p[1..][k] == p[k + 1];
      assert s[0] == p[0] && s[1..] == p[1..] + [sep] + rest;
      SplitAtSeparator(p[1..], sep, rest);
      assert [p[0]] + p[1..] == p;
    }
  }

  /** Joining separator-free parts and splitting again gives the parts back. */
  lemma {:induction false} JoinThenSplit(parts: seq<string>, sep: char)
    requires |parts| >= 1
    requires forall i :: 0 <= i < |parts| ==> sep !in parts[i]
    ensures Split(Join(parts, sep), sep) == parts
    decreases |parts|
  {
    if |parts| == 1 {
      SplitWithoutSeparator(parts[0], sep);
    } else {
      JoinThenSplit(parts[1..], sep);
      SplitAtSeparator(parts[0], sep, Join(parts[1..], sep));
      assert [parts[0]] + parts[1..] == parts;
    }
  }

  /* ---------------------------------------------------------------------
     Stripping leading spaces (the `while (c.charAt(0) == ' ')` loop) and
     matching a segment against `name=` (the `c.indexOf(name) == 0` test).
     --------------------------------------------------------------------- */

  predicate AllSpaces(s: string) {
    forall i :: 0 <= i < |s| ==> s[i] == ' '
  }

  /** Removes every leading space and nothing else. */
  function StripLeadingSpaces(c: string): (r: string)
    ensures |r| <= |c| && r == c[|c| - |r|..]
    ensures AllSpaces(c[..|c| - |r|])
    ensures r == "" || r[0] != ' '
    decreases |c|
  {
    if |c| > 0 && c[0] == ' ' then
      var r := StripLeadingSpaces(c[1..]);
      assert forall i :: 0 < i < |c| - |r| ==> c[i] == c[1..][i - 1];
      r
    else c
  }

  /** The segment, once its leading spaces are stripped, begins with `name`
      (case-sensitive, character by character). */
  predicate Matches(segment: string, name: string) {
    name <= StripLeadingSpaces(segment)
  }

  /** What follows `name` in a matching segment, up to the segment's end. */
  function ValueAfter(segment: string, name: string): string
    requires Matches(segment, name)
  {
    StripLeadingSpaces(segment)[|name|..]
  }

  /** Segment `k` is the first one that matches. */
  predicate FirstMatchAt(segments: seq<string>, name: string, k: int) {
    && 0 <= k < |segments|
    && Matches(segments[k], name)
    && forall j :: 0 <= j < k ==> !Matches(segments[j], name)
  }

  /** The value of the first matching segment, or `""` when none matches. */
  function Lookup(segments: seq<string>, name: string): string
    decreases |segments|
  {
    if |segments| == 0 then ""
    else if Matches(segments[0], name) then ValueAfter(segments[0], name)
    else Lookup(segments[1..], name)
  }

  /** The value `getCookie(cname)` returns for the decoded cookie header. */
  function CookieValue(decodedCookie: string, cname: string): string {
    Lookup(Split(decodedCookie, Separator), cname + "=")
  }

  /* ---------------------------------------------------------------------
     What the lookup means.
     --------------------------------------------------------------------- */

  /** No segment matches: the result is the "not found" sentinel `""`. */
  lemma {:induction false} LookupNotFound(segments: seq<string>, name: string)
    requires forall i :: 0 <= i < |segments| ==> !Matches(segments[i], name)
    ensures Lookup(segments, name) == ""
    decreases |segments|
  {
    if |segments| > 0 {
      assert !Matches(segments[0], name);
      assert forall i :: 0 <= i < |segments[1..]| ==> segments[1..][i] == segments[i + 1];
      LookupNotFound(segments[1..], name);
    }
  }

  /** The first matching segment wins, whatever later segments hold. */
  lemma {:induction false} LookupFirstMatch(segments: seq<string>, name: string, k: int)
    requires FirstMatchAt(segments, name, k)
    ensures Lookup(segments, name) == ValueAfter(segments[k], name)
    decreases k
  {
    if k > 0 {
      assert !Matches(segments[0], name);
      var tail := segments[1..];
      forall j | 0 <= j < k - 1 ensures !Matches(tail[j], name) {
        assert tail[j] == segments[j + 1];
      }
      assert tail[k - 1] == segments[k];
      assert FirstMatchAt(tail, name, k - 1);
      LookupFirstMatch(tail, name, k - 1);
    }
  }

  /** The two cases above are the only ones: either nothing matches, or some
      segment is the first to match. */
  lemma LookupCases(segments: seq<string>, name: string)
    ensures (forall i :: 0 <= i < |segments| ==> !Matches(segments[i], name))
         || (exists k :: FirstMatchAt(segments, name, k))
  {
    if i :| 0 <= i < |segments| && Matches(segments[i], name) {
      LeastMatch(segments, name, i);
    }
  }

  /** If segment `i` matches, some segment at or before `i` is the first
      to match. */
  lemma {:induction false} LeastMatch(segments: seq<string>, name: string, i: int)
    requires 0 <= i < |segments| && Matches(segments[i], name)
    ensures exists k :: 0 <= k <= i && FirstMatchAt(segments, name, k)
    decreases i
  {
    if forall j :: 0 <= j < i ==> !Matches(segments[j], name) {
      assert FirstMatchAt(segments, name, i);
    } else {
      var j :| 0 <= j < i && Matches(segments[j], name);
      LeastMatch(segments, name, j);
    }
  }

  /** A matching segment is: some spaces, then `name`, then exactly the
      returned value. Only leading spaces are dropped; trailing spaces and
      further `=` characters stay in the value. */
  lemma MatchedSegmentShape(segment: string, name: string)
    requires Matches(segment, name)
    ensures exists spaces :: AllSpaces(spaces) && segment == spaces + name + ValueAfter(segment, name)
  {
  }

  /** The result of the cookie reader never contains the separator. */
  lemma CookieValueHasNoSeparator(decodedCookie: string, cname: string)
    ensures Separator !in CookieValue(decodedCookie, cname)
  {
    var segments := Split(decodedCookie, Separator);
    var name := cname + "=";
    LookupCases(segments, name);
    if k :| FirstMatchAt(segments, name, k) {
      LookupFirstMatch(segments, name, k);
      var r := StripLeadingSpaces(segments[k]);
      assert forall x :: x in ValueAfter(segments[k], name) ==> x in r;
      assert forall x :: x in r ==> x in segments[k];
    } else {
      LookupNotFound(segments, name);
    }
  }

  /** `""` comes back exactly when no segment matches or the first matching
      segment's value is empty: the sentinel and an empty value coincide. */
  lemma CookieValueEmpty(decodedCookie: string, cname: string)
    ensures var segments := Split(decodedCookie, Separator);
      CookieValue(decodedCookie, cname) == "" <==>
        (forall i :: 0 <= i < |segments| ==> !Matches(segments[i], cname + "="))
        || (exists k :: FirstMatchAt(segments, cname + "=", k) && ValueAfter(segments[k], cname + "=") == "")
  {
    var segments := Split(decodedCookie, Separator);
    var name := cname + "=";
    LookupCases(segments, name);
    if k :| FirstMatchAt(segments, name, k) {
      LookupFirstMatch(segments, name, k);
      forall k' | FirstMatchAt(segments, name, k') ensures k' == k {
      }
    } else {
      LookupNotFound(segments, name);
    }
  }

  /** On a header made of separator-free segments, the reader returns the
      value of the first segment that matches. */
  lemma CookieValueOfSegments(segments: seq<string>, cname: string, k: int)
    requires forall i :: 0 <= i < |segments| ==> Separator !in segments[i]
    requires FirstMatchAt(segments, cname + "=", k)
    ensures CookieValue(Join(segments, Separator), cname) == ValueAfter(segments[k], cname + "=")
  {
    JoinThenSplit(segments, Separator);
    LookupFirstMatch(segments, cname + "=", k);
  }

  /** A header of three segments. */
  lemma JoinOfThree(a: string, b: string, c: string, sep: char)
    ensures Join([a, b, c], sep) == a + [sep] + (b + [sep] + c)
  {
    assert [a, b, c][1..] == [b, c];
    assert [b, c][1..] == [c];
    assert Join([c], sep) == c;
    assert Join([b, c], sep) == b + [sep] + c;
  }

  /** A segment made of spaces, `name` and a value matches, and its value is
      exactly that value (for a `name` that does not itself start with a space). */
  lemma MatchingSegment(spaces: string, name: string, value: string)
    requires AllSpaces(spaces)
    requires name != "" && name[0] != ' '
    ensures StripLeadingSpaces(spaces + name + value) == name + value
    ensures Matches(spaces + name + value, name)
    ensures ValueAfter(spaces + name + value, name) == value
  {
    assert (name + value)[0] == name[0];
    StripSpacesPrefix(spaces, name + value);
    assert spaces + name + value == spaces + (name + value);
    assert (name + value)[|name|..] == value;
  }

  /** Names that differ in their first character never match each other's segments. */
  lemma OtherNameDoesNotMatch(spaces: string, name: string, value: string, other: string)
    requires AllSpaces(spaces)
    requires name != "" && name[0] != ' '
    requires other != "" && other[0] != name[0]
    ensures !Matches(spaces + name + value, other)
  {
    MatchingSegment(spaces, name, value);
    assert (name + value)[0] == name[0];
  }

  /** Stripping spaces in front of a string that does not start with a space. */
  lemma {:induction false} StripSpacesPrefix(spaces: string, rest: string)
    requires AllSpaces(spaces)
    requires rest == "" || rest[0] != ' '
    ensures StripLeadingSpaces(spaces + rest) == rest
    decreases |spaces|
  {
    if |spaces| > 0 {
      assert (spaces + rest)[1..] == spaces[1..] + rest;
      StripSpacesPrefix(spaces[1..], rest);
    } else {
      assert spaces + rest == rest;
    }
  }

  /* ---------------------------------------------------------------------
     Concrete cases: the leading space after `;` is skipped, and matching is
     a case-sensitive test on the whole of `name=`.
     --------------------------------------------------------------------- */

  /** The header `a=1; name=value`: the space after `;` is skipped. */
  lemma SpaceAfterSeparatorIsSkipped()
    ensures CookieValue("a=1; name=value", "name") == "value"
  {
    var segments := ["" + "a=" + "1", " " + "name=" + "value"];
    SampleHeader();
    OtherNameDoesNotMatch("", "a=", "1", "name=");
    MatchingSegment(" ", "name=", "value");
    assert FirstMatchAt(segments, "name" + "=", 1);
    CookieValueOfSegments(segments, "name", 1);
  }

  /** The segments of `a=1; name=value`, each as spaces, `name=` and value. */
  lemma SampleHeader()
    ensures Join(["" + "a=" + "1", " " + "name=" + "value"], Separator) == "a=1; name=value"
  {
    assert "" + "a=" + "1" == "a=1";
    assert " " + "name=" + "value" == " name=value";
  }

  /** With name `a`, the segment `ab=1` does not match: `a=` must be matched whole. */
  lemma LongerNameDoesNotMatch()
    ensures CookieValue("ab=1", "a") == ""
  {
    MismatchNotFound("ab=1", "a", 1);
  }

  /** With name `a`, the segment `A=1` does not match: case matters. */
  lemma MatchIsCaseSensitive()
    ensures CookieValue("A=1", "a") == ""
  {
    MismatchNotFound("A=1", "a", 0);
  }

  /** A one-segment header that differs from `cname=` at position `i`, and
      does not start with a space, yields the "not found" sentinel. */
  lemma MismatchNotFound(header: string, cname: string, i: int)
    requires Separator !in header
    requires header != "" && header[0] != ' '
    requires 0 <= i < |header| && i < |cname + "="| && header[i] != (cname + "=")[i]
    ensures CookieValue(header, cname) == ""
  {
    var name := cname + "=";
    SplitWithoutSeparator(header, Separator);
    assert StripLeadingSpaces(header) == header;
    assert header[i] != name[i];
    assert !Matches(header, name);
    LookupNotFound([header], name);
  }

  /* ---------------------------------------------------------------------
     The reader itself, written as the loop the script runs.
     --------------------------------------------------------------------- */

  /** `getCookie(cname)` on the already decoded cookie header. */
  method GetCookie(decodedCookie: string, cname: string) returns (value: string)
    ensures value == CookieValue(decodedCookie, cname)
  {
    var name := cname + "=";
    var ca := Split(decodedCookie, Separator);
    for i := 0 to |ca|
      invariant Lookup(ca[i..], name) == Lookup(ca, name)
    {
      var c := ca[i];
      while |c| > 0 && c[0] == ' '
        invariant StripLeadingSpaces(c) == StripLeadingSpaces(ca[i])
        decreases |c|
      {
        c := c[1..];
      }
      assert ca[i..][1..] == ca[i + 1..];
      if name <= c {
        return c[|name|..];
      }
    }
    return "";
  }
}
