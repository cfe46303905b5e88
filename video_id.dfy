/**
 * The identifier extractor: `extract_video_id` in app.py, a `re.search` for
 * `(?:v=|\/)([0-9A-Za-z_-]{11}).*` that returns group 1 or `None`.
 *
 * `MatchesAt` states when the pattern matches starting at a position; the
 * scanner (`IdRunLength`, `MatchGroupAt`, `Search`) walks the string the way
 * the regex engine does, and the lemmas tie the two together.
 */
module VideoId {
  import opened Wrappers

  /** The `{11}` of the pattern. */
  const IdLength: nat := 11

  /** The character class `[0-9A-Za-z_-]` (ASCII only: no IGNORECASE, no `\w`). */
  predicate IsIdChar(c: char) {
    ('0' <= c <= '9') || ('A' <= c <= 'Z') || ('a' <= c <= 'z') || c == '_' || c == '-'
  }

  predicate AllIdChars(s: string) {
    forall k :: 0 <= k < |s| ==> IsIdChar(s[k])
  }

  /** A string group 1 can capture: exactly eleven characters of the class. */
  predicate IsId(s: string) {
    |s| == IdLength && AllIdChars(s)
  }

  /**
   * The pattern matches at position `i`: either `v=` or `/` starts at `i`
   * and is followed by eleven characters of the class. The trailing `.*`
   * matches any rest (possibly empty), so it adds no condition.
   */
  ghost predicate MatchesAt(url: string, i: nat) {
    || (i + 2 + IdLength <= |url| && url[i] == 'v' && url[i + 1] == '=' && IsId(url[i + 2..i + 2 + IdLength]))
    || (i + 1 + IdLength <= |url| && url[i] == '/' && IsId(url[i + 1..i + 1 + IdLength]))
  }

  /** `i` is where `re.search` reports the match: the leftmost matching position. */
  ghost predicate IsLeftmostMatch(url: string, i: nat) {
    MatchesAt(url, i) && forall j :: 0 <= j < i ==> !MatchesAt(url, j)
  }

  /** Where group 1 begins when the pattern matches at `i`. */
  function GroupStart(url: string, i: nat): (g: nat)
    requires MatchesAt(url, i)
    ensures g + IdLength <= |url| && IsId(url[g..g + IdLength])
    ensures (g == i + 1 && url[i] == '/') || (g == i + 2 && url[i] == 'v' && url[i + 1] == '=')
  {
    if url[i] == '/' then i + 1 else i + 2
  }

  /** Group 1 of a match at `i`. */
  function Group(url: string, i: nat): string
    requires MatchesAt(url, i)
  {
    var g := GroupStart(url, i);
    url[g..g + IdLength]
  }

  /**
   * How many characters of the class follow from `j`, counting at most `cap`:
   * the quantifier `[0-9A-Za-z_-]{11}` consuming one character at a time.
   */
  function IdRunLength(url: string, j: nat, cap: nat): (n: nat)
    requires j <= |url|
    ensures n <= cap && j + n <= |url|
    ensures AllIdChars(url[j..j + n])
    ensures n < cap ==> j + n == |url| || !IsIdChar(url[j + n])
    decreases cap
  {
    if cap == 0 || j == |url| || !IsIdChar(url[j]) then 0
    else
      var rest := IdRunLength(url, j + 1, cap - 1);
      assert url[j..j + 1 + rest] == [url[j]] + url[j + 1..j + 1 + rest];
      1 + rest
  }

  /** Eleven class characters start at `j` exactly when the run counted from `j` reaches eleven. */
  lemma FullRunIsId(url: string, j: nat)
    requires j <= |url|
    ensures IdRunLength(url, j, IdLength) == IdLength <==> j + IdLength <= |url| && IsId(url[j..j + IdLength])
  {
    if j + IdLength <= |url| && IsId(url[j..j + IdLength]) {
      forall k | j <= k < j + IdLength ensures IsIdChar(url[k]) {
        assert url[k] == url[j..j + IdLength][k - j];
      }
      RunReachesCap(url, j, IdLength);
    }
  }

  /** When `cap` class characters follow `j`, the run counts all of them. */
  lemma {:induction false} RunReachesCap(url: string, j: nat, cap: nat)
    requires j + cap <= |url|
    requires forall k :: j <= k < j + cap ==> IsIdChar(url[k])
    ensures IdRunLength(url, j, cap) == cap
    decreases cap
  {
    if cap > 0 {
      RunReachesCap(url, j + 1, cap - 1);
    }
  }

  /**
   * One attempt of the regex engine at position `i`: the alternative `v=`,
   * else the alternative `/`, then the eleven class characters. Returns
   * where group 1 begins, or `None` when the pattern does not match here.
   */
  function MatchGroupAt(url: string, i: nat): (g: Option<nat>)
    ensures g.None? <==> !MatchesAt(url, i)
    ensures g.Some? ==> g.value == GroupStart(url, i)
  {
    if i + 1 < |url| && url[i] == 'v' && url[i + 1] == '=' then
      FullRunIsId(url, i + 2);
      if IdRunLength(url, i + 2, IdLength) == IdLength then Some(i + 2) else None
    else if i < |url| && url[i] == '/' then
      FullRunIsId(url, i + 1);
      if IdRunLength(url, i + 1, IdLength) == IdLength then Some(i + 1) else None
    else
      None
  }

  /** No match starts where fewer than twelve characters remain. */
  lemma NoRoomLeft(url: string, i: nat)
    requires i + IdLength >= |url|
    ensures forall j :: i <= j ==> !MatchesAt(url, j)
  {
  }

  /**
   * `re.search`: try positions `i`, `i + 1`, ... in turn and stop at the
   * first one where the pattern matches. Returns that position. Positions
   * with fewer than twelve characters left cannot match and are skipped.
   */
  function Search(url: string, i: nat): (m: Option<nat>)
    ensures m.None? <==> forall j :: i <= j ==> !MatchesAt(url, j)
    ensures m.Some? ==> i <= m.value && MatchesAt(url, m.value)
    ensures m.Some? ==> forall j :: i <= j < m.value ==> !MatchesAt(url, j)
    decreases |url| - i
  {
    if i + IdLength >= |url| then
      NoRoomLeft(url, i);
      None
    else if MatchGroupAt(url, i).Some? then Some(i)
    else Search(url, i + 1)
  }

  /** `extract_video_id`: group 1 of the leftmost match, or `None`. */
  function ExtractVideoId(url: string): (id: Option<string>)
    ensures id.None? <==> forall i :: !MatchesAt(url, i)
    ensures id.Some? ==> IsId(id.value)
    ensures id.Some? ==> exists i :: IsLeftmostMatch(url, i) && id.value == Group(url, i)
  {
    match Search(url, 0)
    case None => None
    case Some(m) =>
      assert IsLeftmostMatch(url, m);
      Some(Group(url, m))
  }

  /** The converse of `ExtractVideoId`'s contract: the leftmost match determines the result. */
  lemma {:induction false} ExtractLeftmost(url: string, m: nat)
    requires IsLeftmostMatch(url, m)
    ensures ExtractVideoId(url) == Some(Group(url, m))
  {
    var found := Search(url, 0);
    assert found == Some(m);
  }

  /** `id` occurs in `url` at `g`, right after `v=` or `/`. */
  ghost predicate OccursAfterMarker(url: string, g: nat, id: string) {
    1 <= g && g + |id| <= |url| && url[g..g + |id|] == id
    && (url[g - 1] == '/' || (2 <= g && url[g - 2] == 'v' && url[g - 1] == '='))
  }

  /** A returned id occurs in the URL, right after `v=` or `/`. */
  lemma IdFollowsMarker(url: string)
    requires ExtractVideoId(url).Some?
    ensures exists g :: OccursAfterMarker(url, g, ExtractVideoId(url).value)
  {
    var id := ExtractVideoId(url).value;
    var i := Search(url, 0).value;
    var g := GroupStart(url, i);
    assert url[g..g + IdLength] == id;
    assert OccursAfterMarker(url, g, id);
  }

  /** Appending text never changes a position's verdict once its window lies inside `url`. */
  lemma SameVerdictInside(url: string, rest: string, j: nat)
    requires j + 2 + IdLength <= |url|
    ensures MatchesAt(url + rest, j) == MatchesAt(url, j)
  {
    var u := url + rest;
    assert u[j..j + 2] == url[j..j + 2];
    assert u[j + 2..j + 2 + IdLength] == url[j + 2..j + 2 + IdLength];
    assert u[j + 1..j + 1 + IdLength] == url[j + 1..j + 1 + IdLength];
  }

  /** A match survives appending text, with the same group. */
  lemma MatchKept(url: string, rest: string, m: nat)
    requires MatchesAt(url, m)
    ensures MatchesAt(url + rest, m) && Group(url + rest, m) == Group(url, m)
  {
    var u := url + rest;
    var g := GroupStart(url, m);
    assert u[g..g + IdLength] == url[g..g + IdLength];
    assert u[m] == url[m] && u[m + 1] == url[m + 1];
  }

  /**
   * The trailing `.*` never constrains the match: whatever follows a URL
   * that yields an id, the same id is extracted.
   */
  lemma {:induction false} TrailingTextIgnored(url: string, rest: string)
    requires ExtractVideoId(url).Some?
    ensures ExtractVideoId(url + rest) == ExtractVideoId(url)
  {
    var m := Search(url, 0).value;
    MatchKept(url, rest, m);
    assert m + 1 + IdLength <= |url|;
    forall j | 0 <= j < m
      ensures !MatchesAt(url + rest, j)
    {
      assert !MatchesAt(url, j);
      SameVerdictInside(url, rest, j);
    }
    ExtractLeftmost(url + rest, m);
  }

  /**
   * A run of eleven or more class characters after the first marker yields
   * its first eleven characters: longer ids are not rejected.
   */
  lemma LongRunYieldsFirstEleven(marker: string, run: string, rest: string)
    requires marker == "/" || marker == "v="
    requires |run| >= IdLength && AllIdChars(run)
    ensures ExtractVideoId(marker + run + rest) == Some(run[..IdLength])
  {
    var url := marker + run + rest;
    var g := |marker|;
    assert url[g..g + IdLength] == run[..IdLength];
    assert url[0] == marker[0] && (marker == "v=" ==> url[1] == '=');
    assert MatchesAt(url, 0);
    ExtractLeftmost(url, 0);
  }
}
