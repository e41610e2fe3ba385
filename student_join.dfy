/**
 * The student's join form: the display name must not be blank, and whatever the student typed
 * or pasted in the poll-id field (a bare id, a join link with a `pollId=` parameter, or the URL
 * of a poll page) is reduced to a 24-digit hexadecimal document id before the page navigates to
 * the poll.
 */
module StudentJoinForm {
  import opened Wrappers
  import opened Text

  const NameRequired := "Please enter your name"
  const PollIdRequired := "Poll ID is required. Please enter only the Poll ID (e.g., 692add7fe6297f3944825a02)"
  const InvalidPollId := "Invalid Poll ID format. Please enter a valid Poll ID from your teacher."

  /** Where a successful submission goes: the poll page of `pollId`, as student `studentName`. */
  datatype Navigation = Navigation(pollId: string, studentName: string)

  predicate IsHexDigit(c: char) {
    ('0' <= c <= '9') || ('a' <= c <= 'f') || ('A' <= c <= 'F')
  }

  /** `/^[a-f0-9]{24}$/i`: exactly 24 hexadecimal digits, either case. */
  predicate IsObjectId(s: string): (b: bool)
    ensures b <==> |s| == 24 && forall c :: c in s ==> IsHexDigit(c)
  {
    |s| == 24 && forall i :: 0 <= i < |s| ==> IsHexDigit(s[i])
  }

  /** The id in the form's own hint is accepted in either case; one digit short or one non-hex digit is not. */
  lemma ObjectIdExamples()
    ensures IsObjectId("692add7fe6297f3944825a02") && IsObjectId("692ADD7FE6297F3944825A02")
    ensures !IsObjectId("692add7fe6297f3944825a0") && !IsObjectId("692add7fe6297f3944825a0g")
  {
    assert !IsHexDigit("692add7fe6297f3944825a0g"[23]);
  }

  predicate IsParamSeparator(c: char) {
    c == '&' || c == '?'
  }

  /** `/pollId=([^&?]+)/` matches at `i`: the key, then at least one character of value. */
  predicate ParamMatchAt(s: string, i: int) {
    OccursAt(s, "pollId=", i) && i + 7 < |s| && !IsParamSeparator(s[i + 7])
  }

  /** The leftmost match at or after `from`, as the regular expression engine finds it. */
  function FirstParamMatch(s: string, from: nat): (r: Option<nat>)
    ensures r.Some? ==> from <= r.value && ParamMatchAt(s, r.value)
    ensures r.Some? ==> forall j :: from <= j < r.value ==> !ParamMatchAt(s, j)
    ensures r.None? ==> forall j :: from <= j < |s| ==> !ParamMatchAt(s, j)
    decreases |s| - from
  {
    if from + 7 >= |s| then None
    else if ParamMatchAt(s, from) then Some(from)
    else FirstParamMatch(s, from + 1)
  }

  /** The greedy `[^&?]+` group: the longest prefix free of `&` and `?`. */
  function ParamValue(s: string): (r: string)
    ensures |r| <= |s| && r == s[..|r|]
    ensures forall k :: 0 <= k < |r| ==> !IsParamSeparator(r[k])
    ensures |r| < |s| ==> IsParamSeparator(s[|r|])
  {
    if s == [] || IsParamSeparator(s[0]) then [] else [s[0]] + ParamValue(s[1..])
  }

  /** A string free of separators is its own value. */
  lemma {:induction false} ParamValueWhole(s: string)
    requires forall k :: 0 <= k < |s| ==> !IsParamSeparator(s[k])
    ensures ParamValue(s) == s
    decreases |s|
  {
    if s != [] {
      ParamValueWhole(s[1..]);
    }
  }

  /** `i` is where the regular expression matches first. */
  predicate IsFirstParamMatch(s: string, i: int) {
    ParamMatchAt(s, i) && forall j :: 0 <= j < i ==> !ParamMatchAt(s, j)
  }

  /** The first step: a pasted link's `pollId=` value replaces the whole field. */
  function ExtractParam(s: string): (r: string)
    ensures (forall j :: 0 <= j < |s| ==> !ParamMatchAt(s, j)) ==> r == s
    ensures forall i :: IsFirstParamMatch(s, i) ==> r == ParamValue(s[i + 7..])
  {
    if Contains(s, "pollId=") then
      match FirstParamMatch(s, 0) {
        case None => s
        case Some(i) => ParamValue(s[i + 7..])
      }
    else s
  }

  /** The field still looks like an address after the first step. */
  predicate IsUrlLike(s: string) {
    Contains(s, "http://") || Contains(s, "https://") || Contains(s, "localhost")
  }

  /**
   * `b` is where `split` on each character of `seps` in turn leaves `s`: at the first of
   * those characters, or at the end when there is none.
   */
  predicate CutPoint(s: string, b: int, seps: string) {
    && 0 <= b <= |s|
    && (forall k :: 0 <= k < b ==> s[k] !in seps)
    && (b == |s| || s[b] in seps)
  }

  /** The second step: an address keeps only its last path segment, cut at `?` and `&`. */
  function StripUrl(s: string): (r: string)
    ensures IsUrlLike(s) ==> '/' !in r && '?' !in r && '&' !in r
    ensures IsUrlLike(s) ==> var seg := AfterLast(s, '/'); |r| <= |seg| && r == seg[..|r|] && CutPoint(seg, |r|, "?&")
    ensures !IsUrlLike(s) ==> r == s
  {
    if IsUrlLike(s) then
      var seg := AfterLast(s, '/');
      QueryCut(seg);
      Before(Before(seg, '?'), '&')
    else s
  }

  /** Cutting at `?` and then at `&` stops at the first of either. */
  lemma QueryCut(seg: string)
    ensures var r := Before(Before(seg, '?'), '&'); r == seg[..|r|] && CutPoint(seg, |r|, "?&")
  {
    assert seg == seg[..|seg|];
    CutFurther(seg, seg, []);
    CutFurther(seg, Before(seg, '?'), ['?']);
    assert ['?'] + ['&'] == "?&";
  }

  /** Cutting a cut of `s` at one more character gives the cut at that character as well. */
  lemma CutFurther(s: string, t: string, seps: string)
    requires |t| <= |s| && t == s[..|t|] && CutPoint(s, |t|, seps)
    ensures forall c :: var u := Before(t, c); u == s[..|u|] && CutPoint(s, |u|, seps + [c])
  {
    forall c ensures var u := Before(t, c); u == s[..|u|] && CutPoint(s, |u|, seps + [c]) {
      var u := Before(t, c);
      assert u == s[..|u|];
      forall k | 0 <= k < |u| ensures s[k] !in seps + [c] {
        assert s[k] == t[k] && t[k] == u[k];
      }
      if |u| < |t| {
        assert s[|u|] == t[|u|] == c;
      }
    }
  }

  /** The last step: cut at the first `?`, `&` or `#`, then trim. */
  function Cleanup(s: string): (r: string)
    ensures '?' !in r && '&' !in r && '#' !in r
    ensures IsTrimmed(r)
    ensures exists b :: CutPoint(s, b, "?&#") && r == Trim(s[..b])
  {
    var cut := Before(Before(Before(s, '?'), '&'), '#');
    SeparatorCut(s);
    TrimKeepsAbsent(cut, '?');
    TrimKeepsAbsent(cut, '&');
    TrimKeepsAbsent(cut, '#');
    Trim(cut)
  }

  /** Cutting at `?`, then `&`, then `#` stops at the first of the three. */
  lemma SeparatorCut(s: string)
    ensures var cut := Before(Before(Before(s, '?'), '&'), '#'); cut == s[..|cut|] && CutPoint(s, |cut|, "?&#")
  {
    assert s == s[..|s|];
    CutFurther(s, s, []);
    CutFurther(s, Before(s, '?'), ['?']);
    CutFurther(s, Before(Before(s, '?'), '&'), ['?'] + ['&']);
    assert ['?'] + ['&'] + ['#'] == "?&#";
  }

  /** The id the form submits, from the raw contents of the poll-id field. */
  function NormalisePollId(field: string): (r: string)
    ensures '?' !in r && '&' !in r && '#' !in r && IsTrimmed(r)
    ensures (forall j :: 0 <= j < |Trim(field)| ==> !ParamMatchAt(Trim(field), j)) && !IsUrlLike(Trim(field))
            ==> exists b :: CutPoint(Trim(field), b, "?&#") && r == Trim(Trim(field)[..b])
  {
    Cleanup(StripUrl(ExtractParam(Trim(field))))
  }

  /**
   * Submitting the form: the name is checked first, then the normalised id must be present and
   * well formed; on success the page goes to that poll with the trimmed name.
   */
  function HandleSubmit(name: string, pollIdField: string): (r: Result<Navigation, string>)
    ensures IsBlank(name) ==> r == Err(NameRequired)
    ensures !IsBlank(name) && NormalisePollId(pollIdField) == [] ==> r == Err(PollIdRequired)
    ensures !IsBlank(name) && NormalisePollId(pollIdField) != [] && !IsObjectId(NormalisePollId(pollIdField))
            ==> r == Err(InvalidPollId)
    ensures r.Ok? <==> !IsBlank(name) && IsObjectId(NormalisePollId(pollIdField))
    ensures r.Ok? ==> IsObjectId(r.value.pollId) && r.value.studentName == Trim(name) && r.value.studentName != []
  {
    if Trim(name) == [] then Err(NameRequired)
    else
      var id := NormalisePollId(pollIdField);
      if id == [] then Err(PollIdRequired)
      else if !IsObjectId(id) then Err(InvalidPollId)
      else Ok(Navigation(id, Trim(name)))
  }

  /** Whatever was typed, the submitted id carries no query, parameter or fragment marks and no surrounding space. */
  lemma NormalisedIsClean(field: string)
    ensures var id := NormalisePollId(field); '?' !in id && '&' !in id && '#' !in id && IsTrimmed(id)
  {
  }

  /** A hexadecimal id holds none of the characters the address rules look for. */
  lemma ObjectIdIsPlain(id: string)
    requires IsObjectId(id)
    ensures !Contains(id, "pollId=") && !IsUrlLike(id)
    ensures '?' !in id && '&' !in id && '#' !in id && '/' !in id
    ensures IsTrimmed(id)
  {
    assert !IsHexDigit('p') && !IsHexDigit('h') && !IsHexDigit('l');
    NotContainsMissingChar(id, "pollId=", 0);
    NotContainsMissingChar(id, "http://", 0);
    NotContainsMissingChar(id, "https://", 0);
    NotContainsMissingChar(id, "localhost", 0);
  }

  /** Cleaning a bare id changes nothing. */
  lemma CleanupObjectId(id: string)
    requires IsObjectId(id)
    ensures Cleanup(id) == id
  {
    ObjectIdIsPlain(id);
    BeforeAbsent(id, '?');
    BeforeAbsent(id, '&');
    BeforeAbsent(id, '#');
    TrimmedUnchanged(id);
  }

  /** A well-formed id typed with any surrounding white space is accepted as it is. */
  lemma BareIdAccepted(name: string, before: string, id: string, after: string)
    requires !IsBlank(name) && IsBlank(before) && IsBlank(after) && IsObjectId(id)
    ensures NormalisePollId(before + id + after) == id
    ensures HandleSubmit(name, before + id + after) == Ok(Navigation(id, Trim(name)))
  {
    ObjectIdIsPlain(id);
    TrimSurrounded(before, id, after);
    assert forall j :: 0 <= j < |id| ==> !ParamMatchAt(id, j);
    CleanupObjectId(id);
  }

  /**
   * A pasted join link yields the id after its first `pollId=`, whatever address precedes it
   * and whatever parameters follow it.
   */
  lemma LinkParamAccepted(prefix: string, id: string, rest: string)
    requires prefix == [] || !IsWhitespace(prefix[0])
    requires forall j :: 0 <= j < |prefix| ==> !OccursAt(prefix + "pollId=", "pollId=", j)
    requires IsObjectId(id)
    requires rest == [] || rest[0] == '&'
    requires IsTrimmed(rest)
    ensures NormalisePollId(prefix + "pollId=" + id + rest) == id
  {
    var link := prefix + "pollId=" + id + rest;
    LinkTrimmed(prefix, id, rest);
    LinkExtracted(prefix, id, rest);
    ObjectIdIsPlain(id);
    assert StripUrl(ExtractParam(Trim(link))) == id;
    CleanupObjectId(id);
  }

  /** The first step finds the link's `pollId=` and keeps exactly the id after it. */
  lemma LinkExtracted(prefix: string, id: string, rest: string)
    requires forall j :: 0 <= j < |prefix| ==> !OccursAt(prefix + "pollId=", "pollId=", j)
    requires IsObjectId(id)
    requires rest == [] || rest[0] == '&'
    ensures ExtractParam(prefix + "pollId=" + id + rest) == id
  {
    var link := prefix + "pollId=" + id + rest;
    ObjectIdIsPlain(id);
    LinkFirstMatch(prefix, id, rest);
    assert link[|prefix| + 7..] == id + rest;
    ParamValuePrefix(id, rest);
  }

  lemma LinkTrimmed(prefix: string, id: string, rest: string)
    requires prefix == [] || !IsWhitespace(prefix[0])
    requires IsObjectId(id)
    requires rest == [] || rest[0] == '&'
    requires IsTrimmed(rest)
    ensures Trim(prefix + "pollId=" + id + rest) == prefix + "pollId=" + id + rest
  {
    LinkEdges(prefix, id, rest);
    TrimmedUnchanged(prefix + "pollId=" + id + rest);
  }

  /** A join link starts and ends with a visible character. */
  lemma LinkEdges(prefix: string, id: string, rest: string)
    requires prefix == [] || !IsWhitespace(prefix[0])
    requires IsObjectId(id)
    requires IsTrimmed(rest)
    ensures IsTrimmed(prefix + "pollId=" + id + rest)
  {
    var tail := "pollId=" + id + rest;
    assert prefix + "pollId=" + id + rest == prefix + tail;
    assert tail[0] == 'p';
    assert !IsWhitespace(tail[|tail| - 1]) by {
      var last := id + rest;
      assert tail == "pollId=" + last;
      Ends("pollId=", last);
      if rest == [] {
        assert last == id && IsHexDigit(id[23]);
      } else {
        Ends(id, rest);
      }
    }
    Ends(prefix, tail);
  }

  /** The first and last characters of a concatenation. */
  lemma Ends(a: string, b: string)
    requires b != []
    ensures (a + b)[0] == if a == [] then b[0] else a[0]
    ensures (a + b)[|a + b| - 1] == b[|b| - 1]
  {
  }

  lemma LinkFirstMatch(prefix: string, id: string, rest: string)
    requires forall j :: 0 <= j < |prefix| ==> !OccursAt(prefix + "pollId=", "pollId=", j)
    requires IsObjectId(id)
    ensures IsFirstParamMatch(prefix + "pollId=" + id + rest, |prefix|)
  {
    var link := prefix + "pollId=" + id + rest;
    var i := |prefix|;
    assert link[i..i + 7] == "pollId=";
    assert link[i + 7] == id[0];
    var head := prefix + "pollId=";
    assert link == head + (id + rest);
    forall j | 0 <= j < i ensures !ParamMatchAt(link, j) {
      assert !OccursAt(head, "pollId=", j);
      assert link[j..j + 7] == head[j..j + 7];
    }
  }

  /** The value stops at the first separator following a separator-free run. */
  lemma {:induction false} ParamValuePrefix(v: string, rest: string)
    requires forall k :: 0 <= k < |v| ==> !IsParamSeparator(v[k])
    requires rest == [] || IsParamSeparator(rest[0])
    ensures ParamValue(v + rest) == v
    decreases |v|
  {
    if v == [] {
      assert v + rest == rest;
    } else {
      assert (v + rest)[1..] == v[1..] + rest;
      ParamValuePrefix(v[1..], rest);
    }
  }

  /** The address of a poll page, with the id as its last path segment, yields the id. */
  lemma PageUrlAccepted(address: string, id: string)
    requires address != [] && !IsWhitespace(address[0]) && address[|address| - 1] == '/'
    requires IsUrlLike(address + id) && !Contains(address + id, "pollId=")
    requires IsObjectId(id)
    ensures NormalisePollId(address + id) == id
  {
    var url := address + id;
    ObjectIdIsPlain(id);
    assert IsTrimmed(url) by {
      assert url[|url| - 1] == id[23];
    }
    TrimmedUnchanged(url);
    assert forall j :: 0 <= j < |url| ==> !ParamMatchAt(url, j);
    assert AfterLast(url, '/') == id by {
      AfterLastSegment(address, id);
    }
    BeforeAbsent(id, '?');
    BeforeAbsent(id, '&');
    CleanupObjectId(id);
  }

  /** The last segment after a path ending in `/` is the segment itself. */
  lemma {:induction false} AfterLastSegment(path: string, segment: string)
    requires path != [] && path[|path| - 1] == '/' && '/' !in segment
    ensures AfterLast(path + segment, '/') == segment
    decreases |segment|
  {
    if segment == [] {
      assert path + segment == path;
    } else {
      var s := path + segment;
      assert s[..|s| - 1] == path + segment[..|segment| - 1];
      AfterLastSegment(path, segment[..|segment| - 1]);
    }
  }
}
