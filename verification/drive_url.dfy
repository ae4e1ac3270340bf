/**
 How the transcriber finds the Google Drive file id inside a shared link
 (`extract_drive_file_id` in main.py). Three rules are tried in order:

 - query rule: the text after the first "id=", up to the next "&", the
   next "id=", or the end;
 - path rule: the `/`-component right after the first component "d";
 - fallback: the second-to-last `/`-component, which raises Python's
   `IndexError` when the link has no `/` at all.
 */
module DriveUrl {
  import opened Strings

  const IdParam: string := "id="
  const Ampersand: string := "&"
  const Slash: string := "/"

  /** Outcome of the extraction: the id, or the `IndexError` that
      `parts[-2]` raises on a one-component link. */
  datatype Extracted = FileId(id: string) | IndexOutOfRange

  /** Python's `xs.index(x)`: the position of the first element equal to `x`. */
  function IndexOfElem(xs: seq<string>, x: string): (k: nat)
    requires x in xs
    ensures k < |xs| && xs[k] == x
    ensures forall j :: 0 <= j < k ==> xs[j] != x
  {
    if xs[0] == x then 0 else 1 + IndexOfElem(xs[1..], x)
  }

  /** `parts[-2]`: the component with exactly one component after it, or
      the `IndexError` when there are fewer than two. */
  function SecondToLast(parts: seq<string>): (r: Extracted)
    ensures r.FileId? <==> |parts| >= 2
    ensures r.FileId? ==> parts == parts[..|parts| - 2] + [r.id] + parts[|parts| - 1..]
  {
    if |parts| >= 2 then FileId(parts[|parts| - 2]) else IndexOutOfRange
  }

  /** Lines 41-46 of `extract_drive_file_id`, on the `/`-components. */
  function PathOrFallback(parts: seq<string>): (r: Extracted)
    ensures r.IndexOutOfRange? <==> |parts| < 2
    ensures r.FileId? ==> r.id in parts
  {
    if "d" in parts then
      var idx := IndexOfElem(parts, "d");
      if idx + 1 < |parts| then FileId(parts[idx + 1]) else SecondToLast(parts)
    else
      SecondToLast(parts)
  }

  /** `extract_drive_file_id(url)`. */
  function ExtractDriveFileId(url: string): (r: Extracted)
    ensures r.IndexOutOfRange? <==> !Contains(url, IdParam) && !Contains(url, Slash)
    ensures Contains(url, IdParam) ==> !Contains(r.id, Ampersand) && !Contains(r.id, IdParam)
    ensures !Contains(url, IdParam) && r.FileId? ==> !Contains(r.id, Slash)
  {
    if Contains(url, IdParam) then
      var piece := Split(url, IdParam)[1];
      var id := Split(piece, Ampersand)[0];
      NotContainsInfix(piece, id, 0, IdParam);
      FileId(id)
    else
      PathOrFallback(Split(url, Slash))
  }

  /** `id` sits at position `j` of `url`, holds no "&" and no "id=", and is
      followed by "&", by "id=", or by the end of `url`. */
  ghost predicate StoppedIdAt(url: string, id: string, j: int) {
    var e := j + |id|;
    && OccursAt(url, id, j)
    && !Contains(id, Ampersand)
    && !Contains(id, IdParam)
    && (e == |url| || url[e] == '&' || OccursAt(url, IdParam, e))
  }

  /** The query rule, read off the text after the first "id=": the id starts
      that text and stops at its first "&", its first "id=", or its end. */
  function QueryId(rest: string): (id: string)
    ensures StoppedIdAt(rest, id, 0)
  {
    var piece := Split(rest, IdParam)[0];
    var id := Split(piece, Ampersand)[0];
    StoppedPrefix(rest, piece, id);
    id
  }

  /** The two splits of `QueryId` leave a stopped id at the front. */
  lemma StoppedPrefix(rest: string, piece: string, id: string)
    requires piece == Split(rest, IdParam)[0]
    requires id == Split(piece, Ampersand)[0]
    ensures StoppedIdAt(rest, id, 0)
  {
    assert OccursAt(rest, piece, 0);
    assert OccursAt(piece, id, 0);
    OccursTrans(rest, piece, id, 0, 0);
    NotContainsInfix(piece, id, 0, IdParam);
    if id != piece {
      assert FirstOccurrence(piece, Ampersand, |id|);
      assert piece[|id|..|id| + 1] == Ampersand;
      assert rest[|id|] == piece[|id|];
    }
  }

  /** With a first "id=" at `i`, the query rule applies to the text after it. */
  lemma QueryRuleApplies(url: string, i: int)
    requires FirstOccurrence(url, IdParam, i)
    ensures ExtractDriveFileId(url) == FileId(QueryId(url[i + |IdParam|..]))
  {
    FirstOccurrenceUnique(url, IdParam, i);
    var tail := Split(url[i + |IdParam|..], IdParam);
    assert Split(url, IdParam) == [url[..i]] + tail;
  }

  /** A stopped id in the text after position `j` is a stopped id in `url`. */
  lemma StoppedIdInSuffix(url: string, id: string, j: int)
    requires 0 <= j <= |url|
    requires StoppedIdAt(url[j..], id, 0)
    ensures StoppedIdAt(url, id, j)
  {
    var rest := url[j..];
    assert url[j..|url|] == rest;
    OccursInSlice(url, id, j, |url|, 0);
    if |id| < |rest| {
      assert rest[|id|] == url[j + |id|];
      if rest[|id|] != '&' {
        OccursInSlice(url, IdParam, j, |url|, |id|);
      }
    }
  }

  /** The query rule: the id starts right after the first "id=" and runs up
      to the nearest following "&", the next "id=", or the end of the link. */
  lemma QueryRule(url: string, i: int)
    requires FirstOccurrence(url, IdParam, i)
    ensures ExtractDriveFileId(url).FileId?
    ensures StoppedIdAt(url, ExtractDriveFileId(url).id, i + |IdParam|)
  {
    var j := i + |IdParam|;
    QueryRuleApplies(url, i);
    StoppedIdInSuffix(url, QueryId(url[j..]), j);
  }

  /** The path rule on the components. */
  lemma PathRuleParts(parts: seq<string>, k: int)
    requires 0 <= k < |parts| - 1
    requires parts[k] == "d"
    requires forall j :: 0 <= j < k ==> parts[j] != "d"
    ensures PathOrFallback(parts) == FileId(parts[k + 1])
  {
    assert "d" in parts;
    assert IndexOfElem(parts, "d") == k;
  }

  /** The path rule: with no "id=", and a component "d" that is not the last,
      the id is the component right after the FIRST "d". */
  lemma PathRule(url: string, k: int)
    requires !Contains(url, IdParam)
    requires 0 <= k < |Split(url, Slash)| - 1
    requires Split(url, Slash)[k] == "d"
    requires forall j :: 0 <= j < k ==> Split(url, Slash)[j] != "d"
    ensures ExtractDriveFileId(url) == FileId(Split(url, Slash)[k + 1])
  {
    PathRuleParts(Split(url, Slash), k);
  }

  /** The fallback on the components. */
  lemma FallbackParts(parts: seq<string>)
    requires |parts| >= 2
    requires forall k :: 0 <= k < |parts| - 1 ==> parts[k] != "d"
    ensures PathOrFallback(parts) == FileId(parts[|parts| - 2])
  {
    if "d" in parts {
      var k := IndexOfElem(parts, "d");
      assert parts[k] == "d";
    }
  }

  /** `id` is the second-to-last `/`-component of `url`: it starts the link
      or follows a `/`, and is followed by a `/` and then a last component
      without `/`. */
  ghost predicate SecondToLastComponent(url: string, id: string) {
    exists a :: && OccursAt(url, id + Slash, a)
                && (a == 0 || url[a - 1] == '/')
                && !Contains(url[a + |id| + 1..], Slash)
  }

  /** The component between `pre` and the last one, when `pre` is empty or
      ends in `/`. */
  lemma SecondToLastInConcat(pre: string, id: string, last: string)
    requires pre == [] || pre[|pre| - 1] == '/'
    requires !Contains(last, Slash)
    ensures SecondToLastComponent(pre + id + Slash + last, id)
  {
    var url := pre + id + Slash + last;
    var a := |pre|;
    assert url[a..a + |id| + 1] == id + Slash;
    assert url[a + |id| + 1..] == last;
    if a > 0 {
      assert url[a - 1] == pre[a - 1];
    }
    assert OccursAt(url, id + Slash, a);
  }

  /** Where the second-to-last of some components sits once they are
      joined with `/`. */
  lemma SecondToLastInJoin(parts: seq<string>)
    requires |parts| >= 2
    requires !Contains(parts[|parts| - 1], Slash)
    ensures SecondToLastComponent(Join(parts, Slash), parts[|parts| - 2])
  {
    var n := |parts|;
    JoinLastTwo(parts, Slash);
    var pre := JoinLead(parts[..n - 2], Slash);
    assert pre == [] || pre[|pre| - 1] == '/';
    SecondToLastInConcat(pre, parts[n - 2], parts[n - 1]);
  }

  /** The fallback: with no "id=" and no "d" component followed by another,
      the id is the second-to-last component, preceded by the start of the
      link or a `/` and followed by a `/` and a last component without `/`. */
  lemma FallbackRule(url: string)
    requires !Contains(url, IdParam)
    requires Contains(url, Slash)
    requires forall k :: 0 <= k < |Split(url, Slash)| - 1 ==> Split(url, Slash)[k] != "d"
    ensures ExtractDriveFileId(url).FileId?
    ensures SecondToLastComponent(url, ExtractDriveFileId(url).id)
    ensures !Contains(ExtractDriveFileId(url).id, Slash)
  {
    var parts := Split(url, Slash);
    FallbackParts(parts);
    SecondToLastInJoin(parts);
  }
}
