/**
 * `find_occurrences`: every non-overlapping match of the normalized query in
 * the normalized text, reported as a window of the ORIGINAL text around the
 * match position.
 */
module OccurrenceSearch {
  import opened Wrappers
  import opened Text

  /**
   * The match positions the search loop reports from cursor `idx` on: each
   * search restarts just past the end of the previous match.
   */
  function MatchPositions(tn: string, qn: string, idx: nat): (ps: seq<nat>)
    requires qn != ""
    ensures idx <= |tn| ==> |ps| <= |tn| - idx
    decreases |tn| - idx
  {
    var pos := Find(tn, qn, idx);
    if pos == -1 then []
    else [pos] + MatchPositions(tn, qn, pos + |qn|)
  }

  /** Every position in `ps` is a match of `qn` in `tn` at or after `idx`. */
  predicate MatchesFrom(tn: string, qn: string, idx: nat, ps: seq<nat>) {
    forall k :: 0 <= k < |ps| ==> idx <= ps[k] && MatchAt(tn, qn, ps[k])
  }

  /** Consecutive positions of `ps` are at least `len` apart: matches of length `len` never overlap. */
  predicate Disjoint(ps: seq<nat>, len: nat) {
    forall k :: 0 <= k < |ps| - 1 ==> ps[k] + len <= ps[k + 1]
  }

  /**
   * The reported positions are matches at or after the cursor, reported left
   * to right, and they never overlap.
   */
  lemma {:induction false} MatchPositionsSound(tn: string, qn: string, idx: nat)
    requires qn != ""
    ensures MatchesFrom(tn, qn, idx, MatchPositions(tn, qn, idx))
    ensures Disjoint(MatchPositions(tn, qn, idx), |qn|)
    decreases |tn| - idx
  {
    var pos := Find(tn, qn, idx);
    if pos != -1 {
      var rest := MatchPositions(tn, qn, pos + |qn|);
      MatchPositionsSound(tn, qn, pos + |qn|);
      var ps := [pos] + rest;
      assert MatchPositions(tn, qn, idx) == ps;
      forall k | 0 <= k < |ps|
        ensures idx <= ps[k] && MatchAt(tn, qn, ps[k])
      {
        if k > 0 {
          assert ps[k] == rest[k - 1];
        }
      }
      forall k | 0 <= k < |ps| - 1
        ensures ps[k] + |qn| <= ps[k + 1]
      {
        assert ps[k + 1] == rest[k];
        if k > 0 {
          assert ps[k] == rest[k - 1];
        }
      }
    }
  }

  /** One step of the search loop: the next match, then the rest. */
  lemma MatchPositionsStep(tn: string, qn: string, idx: nat)
    requires qn != "" && Find(tn, qn, idx) != -1
    ensures var pos := Find(tn, qn, idx);
      MatchPositions(tn, qn, idx) == [pos] + MatchPositions(tn, qn, pos + |qn|)
  {
  }

  /** Position `p` lies inside one of the reported matches. */
  predicate Covered(ps: seq<nat>, len: nat, p: int) {
    exists k :: 0 <= k < |ps| && ps[k] <= p < ps[k] + len
  }

  /**
   * Nothing is skipped: every match at or after `idx` is reported or starts
   * inside a reported match (the leftmost-first, non-overlapping reading).
   */
  lemma {:induction false} MatchPositionsComplete(tn: string, qn: string, idx: nat, p: int)
    requires qn != "" && idx <= p && MatchAt(tn, qn, p)
    ensures Covered(MatchPositions(tn, qn, idx), |qn|, p)
    decreases |tn| - idx
  {
    var pos := Find(tn, qn, idx);
    var ps := MatchPositions(tn, qn, idx);
    FindLeftmost(tn, qn, idx, p);
    if p < pos + |qn| {
      assert ps[0] == pos;
    } else {
      var rest := MatchPositions(tn, qn, pos + |qn|);
      MatchPositionsComplete(tn, qn, pos + |qn|, p);
      var k :| 0 <= k < |rest| && rest[k] <= p < rest[k] + |qn|;
      assert ps[k + 1] == rest[k];
    }
  }

  /** No position is reported exactly when the query does not occur at all. */
  lemma NoMatchNoPositions(tn: string, qn: string)
    requires qn != ""
    ensures MatchPositions(tn, qn, 0) == [] <==> forall p :: !MatchAt(tn, qn, p)
  {
    if p :| MatchAt(tn, qn, p) {
      MatchPositionsComplete(tn, qn, 0, p);
    }
  }

  /** Python's `s[i:j]` for non-negative bounds: clamped to `s`, empty when `i >= j`. */
  function Slice(s: string, i: nat, j: nat): (r: string)
    ensures |r| <= |s|
  {
    var lo := if i < |s| then i else |s|;
    var hi := if j < |s| then j else |s|;
    if lo < hi then s[lo..hi] else ""
  }

  /** `s.replace("\n", " ")`. */
  function ReplaceNewlines(s: string): (r: string)
    ensures |r| == |s|
    ensures forall k :: 0 <= k < |r| ==> r[k] != '\n'
  {
    seq(|s|, k requires 0 <= k < |s| => if s[k] == '\n' then ' ' else s[k])
  }

  /** `max(0, pos - window)`. */
  function WindowStart(pos: nat, window: nat): nat {
    if pos >= window then pos - window else 0
  }

  /** `min(len(text), pos + len(query) + window)`: uses the raw query's length. */
  function WindowEnd(text: string, query: string, pos: nat, window: nat): nat {
    if |text| < pos + |query| + window then |text| else pos + |query| + window
  }

  /** The snippet for a match at `pos` of the NORMALIZED text, cut from the ORIGINAL text. */
  function Snippet(text: string, query: string, pos: nat, window: nat): (r: string)
    ensures |r| <= |query| + 2 * window
  {
    ReplaceNewlines(Slice(text, WindowStart(pos, window), WindowEnd(text, query, pos, window)))
  }

  /**
   * The snippet is the whole window `text[start:end]` clamped to the text:
   * `end - start` characters when the window is not empty, and character `k`
   * is the text's character at `start + k` (a newline there shows as a space).
   */
  lemma SnippetWindow(text: string, query: string, pos: nat, window: nat)
    ensures var r := Snippet(text, query, pos, window);
      var start := WindowStart(pos, window);
      var end := WindowEnd(text, query, pos, window);
      end <= |text| &&
      |r| == (if start < end then end - start else 0) &&
      (forall k :: 0 <= k < |r| ==>
        r[k] == (if text[start + k] == '\n' then ' ' else text[start + k]))
  {
  }

  /** `s` is the snippet of some match of the normalized query in the normalized text. */
  ghost predicate SnippetOfMatch(text: string, query: string, window: nat, s: string) {
    exists p :: MatchAt(Normalize(Some(text)), Normalize(Some(query)), p) && s == Snippet(text, query, p, window)
  }

  /**
   * The corrected `find_occurrences(text, query, window)`: one snippet per
   * reported match position, and nothing when the normalized query is empty
   * (where the loop as written never exits).
   */
  function Occurrences(text: string, query: string, window: nat): (out: seq<string>)
    ensures |out| <= |Normalize(Some(text))|
  {
    var qn := Normalize(Some(query));
    if qn == "" then []
    else
      Snippets(text, query, window, MatchPositions(Normalize(Some(text)), qn, 0))
  }

  /** The snippets for the match positions `ps`, in order. */
  function Snippets(text: string, query: string, window: nat, ps: seq<nat>): (out: seq<string>)
    ensures |out| == |ps|
  {
    seq(|ps|, k requires 0 <= k < |ps| => Snippet(text, query, ps[k], window))
  }

  /** Every snippet is the snippet of a match of the normalized query in the normalized text. */
  lemma OccurrencesAreMatches(text: string, query: string, window: nat)
    ensures forall k :: 0 <= k < |Occurrences(text, query, window)| ==>
      SnippetOfMatch(text, query, window, Occurrences(text, query, window)[k])
  {
    var qn := Normalize(Some(query));
    if qn != "" {
      var tn := Normalize(Some(text));
      var ps := MatchPositions(tn, qn, 0);
      MatchPositionsSound(tn, qn, 0);
      forall k | 0 <= k < |ps|
        ensures SnippetOfMatch(text, query, window, Occurrences(text, query, window)[k])
      {
        assert MatchAt(tn, qn, ps[k]);
      }
    }
  }

  /**
   * `find_occurrences`: normalizes the text and the query, then runs the
   * search loop. Returns at once when the normalized query is empty (the
   * loop as written would never exit then; see LoopAsWritten).
   */
  method FindOccurrences(text: string, query: string, window: nat) returns (out: seq<string>)
    ensures out == Occurrences(text, query, window)
  {
    var qn := Normalize(Some(query));
    var tn := Normalize(Some(text));
    if qn == "" {
      return [];
    }
    out := ScanMatches(text, query, window, tn, qn);
  }

  /**
   * The search loop of `find_occurrences` over the normalized text `tn` and
   * query `qn`: find the next match from the cursor, cut its snippet from the
   * original text, move the cursor just past the match.
   */
  method ScanMatches(text: string, query: string, window: nat, tn: string, qn: string)
    returns (out: seq<string>)
    requires qn != ""
    ensures out == Snippets(text, query, window, MatchPositions(tn, qn, 0))
  {
    out := [];
    var idx: nat := 0;
    ghost var done: seq<nat> := [];
    while true
      invariant idx <= |tn|
      invariant MatchPositions(tn, qn, 0) == done + MatchPositions(tn, qn, idx)
      invariant |out| == |done|
      invariant forall k :: 0 <= k < |out| ==> out[k] == Snippet(text, query, done[k], window)
      decreases |tn| - idx
    {
      var pos := Find(tn, qn, idx);
      if pos == -1 {
        assert MatchPositions(tn, qn, idx) == [];
        assert done + [] == done;
        break;
      }
      MatchPositionsStep(tn, qn, idx);
      ghost var rest := MatchPositions(tn, qn, pos + |qn|);
      assert done + ([pos] + rest) == (done + [pos]) + rest;
      var snippet := Snippet(text, query, pos, window);
      out := out + [snippet];
      done := done + [pos];
      idx := pos + |qn|;
    }
  }

  /** Every snippet is at most `len(query) + 2 * window` long and holds no newline. */
  lemma OccurrenceShape(text: string, query: string, window: nat, k: int)
    requires 0 <= k < |Occurrences(text, query, window)|
    ensures |Occurrences(text, query, window)[k]| <= |query| + 2 * window
    ensures '\n' !in Occurrences(text, query, window)[k]
  {
    var qn := Normalize(Some(query));
    if qn != "" {
      var ps := MatchPositions(Normalize(Some(text)), qn, 0);
      assert Occurrences(text, query, window)[k] == Snippet(text, query, ps[k], window);
      SnippetWindow(text, query, ps[k], window);
    }
  }

  /**
   * One snippet per match: with a non-empty normalized query, the count is
   * the number of reported match positions, and it is zero exactly when the
   * normalized query does not occur in the normalized text.
   */
  lemma OccurrenceCount(text: string, query: string, window: nat)
    requires Normalize(Some(query)) != ""
    ensures |Occurrences(text, query, window)| == |MatchPositions(Normalize(Some(text)), Normalize(Some(query)), 0)|
    ensures Occurrences(text, query, window) == [] <==>
      forall p :: !MatchAt(Normalize(Some(text)), Normalize(Some(query)), p)
  {
    NoMatchNoPositions(Normalize(Some(text)), Normalize(Some(query)));
  }

  /** The empty text (a page whose extraction failed) has no occurrence. */
  lemma EmptyTextNoOccurrence(query: string, window: nat)
    ensures Occurrences("", query, window) == []
  {
  }

  /**
   * Snippet `s` of a match at `p` shows it: the `len(qn)` characters of the
   * text at `p` lower-case to `qn`, and `s` holds them verbatim (newlines
   * shown as spaces) at offset `p - WindowStart`.
   */
  predicate ShowsMatch(text: string, s: string, p: nat, qn: string, window: nat) {
    var off := p - WindowStart(p, window);
    p + |qn| <= |text| && Lower(text[p..p + |qn|]) == qn &&
    off + |qn| <= |s| && s[off..off + |qn|] == ReplaceNewlines(text[p..p + |qn|])
  }

  /**
   * When the normalized text `tn` is a lower-cased prefix of the original text
   * (NormalizeAsciiPrefix: ASCII text without leading whitespace) and the
   * normalized query is no longer than the raw one (NormalizeAsciiShorter:
   * ASCII query), the snippet of a match at `p` holds the matched original
   * text verbatim (newlines shown as spaces), at offset `p - WindowStart`,
   * and that text lower-cases to the normalized query.
   */
  lemma SnippetShowsMatch(text: string, query: string, tn: string, qn: string, window: nat, p: nat)
    requires LowerCasedPrefix(tn, text) && |qn| <= |query|
    requires MatchAt(tn, qn, p)
    ensures ShowsMatch(text, Snippet(text, query, p, window), p, qn, window)
  {
    LoweredMatch(text, tn, qn, p);
    SnippetHoldsSlice(text, query, window, p, |qn|);
  }

  /**
   * For ASCII text without leading whitespace and an ASCII query that does
   * not normalize to "", snippet `k` of `find_occurrences` shows the `k`-th
   * match of the normalized query in the normalized text.
   */
  lemma OccurrenceShowsMatch(text: string, query: string, window: nat, k: nat)
    requires AllAscii(text) && (text == [] || !IsSpace(text[0]))
    requires AllAscii(query) && Normalize(Some(query)) != ""
    requires k < |Occurrences(text, query, window)|
    ensures ShowsMatch(text, Occurrences(text, query, window)[k],
                       MatchPositions(Normalize(Some(text)), Normalize(Some(query)), 0)[k], Normalize(Some(query)), window)
  {
    var tn := Normalize(Some(text));
    var qn := Normalize(Some(query));
    NormalizeAsciiPrefix(text);
    NormalizeAsciiShorter(query);
    assert Occurrences(text, query, window) == Snippets(text, query, window, MatchPositions(tn, qn, 0));
    SnippetsShowMatch(text, query, window, tn, qn, k);
  }

  /** OccurrenceShowsMatch over any lower-cased prefix `tn` of the text and any `qn` no longer than the query. */
  lemma SnippetsShowMatch(text: string, query: string, window: nat, tn: string, qn: string, k: nat)
    requires qn != "" && LowerCasedPrefix(tn, text) && |qn| <= |query|
    requires k < |MatchPositions(tn, qn, 0)|
    ensures ShowsMatch(text, Snippets(text, query, window, MatchPositions(tn, qn, 0))[k],
                       MatchPositions(tn, qn, 0)[k], qn, window)
  {
    var ps := MatchPositions(tn, qn, 0);
    MatchPositionsSound(tn, qn, 0);
    SnippetShowsMatch(text, query, tn, qn, window, ps[k]);
  }

  /** A match in a lower-cased prefix `tn` of `text` is a match in the lower-cased text itself. */
  lemma LoweredMatch(text: string, tn: string, qn: string, p: nat)
    requires LowerCasedPrefix(tn, text) && MatchAt(tn, qn, p)
    ensures p + |qn| <= |text| && Lower(text[p..p + |qn|]) == qn
  {
    AgreesFromIff(tn, qn, p, 0);
    var m := text[p..p + |qn|];
    forall j | 0 <= j < |qn|
      ensures Lower(m)[j] == qn[j]
    {
      assert Lower(m)[j] == LowerChar(text[p + j]) == tn[p + j];
    }
  }

  /**
   * The window around a match at `p` of a query no longer than the raw one
   * holds the `n` matched characters of the text, at offset `p - WindowStart`.
   */
  lemma SnippetHoldsSlice(text: string, query: string, window: nat, p: nat, n: nat)
    requires p + n <= |text| && n <= |query|
    ensures var s := Snippet(text, query, p, window);
      var off := p - WindowStart(p, window);
      off + n <= |s| && s[off..off + n] == ReplaceNewlines(text[p..p + n])
  {
    var start := WindowStart(p, window);
    var end := WindowEnd(text, query, p, window);
    assert start <= p && p + n <= end <= |text|;
    var t := Slice(text, start, end);
    assert t == text[start..end];
    var s := Snippet(text, query, p, window);
    assert s == ReplaceNewlines(t);
    var off := p - start;
    var shown := s[off..off + n];
    var matched := ReplaceNewlines(text[p..p + n]);
    forall j | 0 <= j < n
      ensures shown[j] == matched[j]
    {
      assert shown[j] == s[off + j];
      assert t[off + j] == text[p + j];
    }
  }

  /** `" x"` normalizes to `"x"`: the leading space is trimmed. */
  lemma LeadingSpaceTrimmed()
    ensures Normalize(Some(" x")) == "x"
  {
    NormalizeAscii(" x");
    SpaceXLowered();
    SpaceXStripped();
  }

  /** Step of `LeadingSpaceTrimmed`: lower-casing `" x"` changes nothing. */
  lemma SpaceXLowered()
    ensures Lower(" x") == " x"
  {
  }

  /** Step of `LeadingSpaceTrimmed`: trimming `" x"` leaves `"x"`. */
  lemma SpaceXStripped()
    ensures StripRight(StripLeft(" x")) == "x"
  {
    assert " x"[1..] == "x";
  }

  /** `"x"` normalizes to itself. */
  lemma PlainLetterNormalized()
    ensures Normalize(Some("x")) == "x"
  {
    NormalizeAscii("x");
    XLowered();
    XStripped();
  }

  /** Step of `PlainLetterNormalized`: lower-casing `"x"` changes nothing. */
  lemma XLowered()
    ensures Lower("x") == "x"
  {
  }

  /** Step of `PlainLetterNormalized`: trimming `"x"` changes nothing. */
  lemma XStripped()
    ensures StripRight(StripLeft("x")) == "x"
  {
  }

  /** The only match of `"x"` in `"x"` is at 0. */
  lemma SingleMatch()
    ensures MatchPositions("x", "x", 0) == [0]
  {
    assert MatchAt("x", "x", 0);
    assert Find("x", "x", 0) == 0;
    assert Find("x", "x", 1) == -1;
  }

  /**
   * The offset quirk: positions come from the normalized text but index the
   * original one, so a leading space shifts the window and, with window 0,
   * the snippet for the match "x" of " x" is " ".
   */
  lemma LeadingSpaceShiftsSnippet()
    ensures Occurrences(" x", "x", 0) == [" "]
  {
    LeadingSpaceOccurrences();
    SpaceSnippet();
  }

  /** Step of `LeadingSpaceShiftsSnippet`: `"x"` in `" x"` gives the one snippet cut at normalized position 0. */
  lemma LeadingSpaceOccurrences()
    ensures Occurrences(" x", "x", 0) == [Snippet(" x", "x", 0, 0)]
  {
    LeadingSpaceTrimmed();
    PlainLetterNormalized();
    SingleMatch();
  }

  /** Step of `LeadingSpaceShiftsSnippet`: the window 0 snippet at position 0 of `" x"` is `" "`. */
  lemma SpaceSnippet()
    ensures Snippet(" x", "x", 0, 0) == " "
  {
    assert Slice(" x", 0, 1) == " ";
  }

  // ---------------------------------------------------------------------------
  // The loop as written, for a query that normalizes to ""
  // ---------------------------------------------------------------------------

  /**
   * The loop of `find_occurrences` exactly as written, with no guard on an
   * empty normalized query, run for at most `fuel` iterations: the positions
   * it reports, or `None` when it has not exited within `fuel` iterations.
   */
  function LoopAsWritten(tn: string, qn: string, idx: nat, fuel: nat): (r: Option<seq<nat>>)
    ensures r.Some? ==> forall k :: 0 <= k < |r.value| ==> idx <= r.value[k] && MatchAt(tn, qn, r.value[k])
    decreases fuel
  {
    if fuel == 0 then None
    else
      var pos := Find(tn, qn, idx);
      if pos == -1 then Some([])
      else
        match LoopAsWritten(tn, qn, pos + |qn|, fuel - 1)
        case None => None
        case Some(rest) => Some([pos] + rest)
  }

  /** With a non-empty normalized query the loop exits and reports MatchPositions. */
  lemma {:induction false} LoopAsWrittenExits(tn: string, qn: string, idx: nat, fuel: nat)
    requires qn != "" && idx <= |tn| && fuel > |tn| - idx
    ensures LoopAsWritten(tn, qn, idx, fuel) == Some(MatchPositions(tn, qn, idx))
    decreases fuel
  {
    var pos := Find(tn, qn, idx);
    if pos != -1 {
      LoopAsWrittenExits(tn, qn, pos + |qn|, fuel - 1);
    }
  }

  /** With an empty normalized query `find` returns the cursor itself, so the loop never exits. */
  lemma {:induction false} EmptyQueryNeverExits(tn: string, idx: nat, fuel: nat)
    requires idx <= |tn|
    ensures LoopAsWritten(tn, "", idx, fuel) == None
    decreases fuel
  {
    if fuel > 0 {
      assert tn[idx..idx] == "";
      assert Find(tn, "", idx) == idx;
      EmptyQueryNeverExits(tn, idx, fuel - 1);
    }
  }

  /**
   * A blank query " " is not the empty string, so `search_pdfs` lets it
   * through, but it normalizes to "" and the loop as written never exits on
   * any page text.
   */
  lemma BlankQueryHangsAsWritten(text: string, fuel: nat)
    ensures " " != "" && Normalize(Some(" ")) == ""
    ensures LoopAsWritten(Normalize(Some(text)), Normalize(Some(" ")), 0, fuel) == None
  {
    assert Normalize(Some(" ")) == "";
    EmptyQueryNeverExits(Normalize(Some(text)), 0, fuel);
  }

  /** The corrected search returns nothing for a query that normalizes to "". */
  lemma BlankQueryNoOccurrence(text: string, query: string, window: nat)
    requires Normalize(Some(query)) == ""
    ensures Occurrences(text, query, window) == []
  {
  }
}
