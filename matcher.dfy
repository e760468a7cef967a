/**
 * The chat search of the public view: score every record's normalized name
 * against the normalized query, keep the scores above 0.4, sort them in
 * descending order (stably), and phrase a reply about the best one.
 */
module Matcher {
  import opened Text
  import opened Wrappers
  import opened Constants
  import opened Normalizer
  import opened EditDistance

  /** A record is a candidate only when its score is strictly above this. */
  const THRESHOLD: real := 0.4

  /**
   * `fuzzyMatchScore`: one minus the edit distance relative to the longer
   * string, and 1 for two empty strings. It lies in [0, 1] and is 1 exactly
   * when the strings agree up to case.
   */
  function Score(s1: string, s2: string): (r: real)
    ensures 0.0 <= r <= 1.0
    ensures r == 1.0 <==> Lower(s1) == Lower(s2)
  {
    var longer := if |s1| > |s2| then s1 else s2;
    var shorter := if |s1| > |s2| then s2 else s1;
    if |longer| == 0 then 1.0
    else
      var d := Levenshtein(longer, shorter);
      Ratio(|longer| - d, |longer|);
      (|longer| - d) as real / |longer| as real
  }

  /** A share of a positive whole lies in [0, 1] and is 1 only for the whole itself. */
  lemma Ratio(part: int, whole: int)
    requires 0 <= part <= whole && 0 < whole
    ensures 0.0 <= part as real / whole as real <= 1.0
    ensures part as real / whole as real == 1.0 <==> part == whole
  {
    var q := part as real / whole as real;
    assert q * whole as real == part as real;
  }

  /** The score does not depend on the order of its arguments. */
  lemma ScoreSymmetric(s1: string, s2: string)
    ensures Score(s1, s2) == Score(s2, s1)
  {
    LevenshteinSymmetric(s1, s2);
  }

  /** The score of a record against a normalized query: its normalized full name is compared. */
  function ScoreOf(query: string, v: Vip): real {
    Score(query, Normalize(v.fullName))
  }

  /** A record paired with its score (`{ ...vip, score }`). */
  datatype Scored = Scored(vip: Vip, score: real)

  /** `vips.map(vip => ({ ...vip, score: ... }))`. */
  function ScoreAll(query: string, vips: seq<Vip>): (r: seq<Scored>)
    ensures |r| == |vips|
    ensures forall k :: 0 <= k < |r| ==> r[k].vip == vips[k] && r[k].score == ScoreOf(query, vips[k])
  {
    seq(|vips|, k requires 0 <= k < |vips| => Scored(vips[k], ScoreOf(query, vips[k])))
  }

  /** `.filter(vip => vip.score > 0.4)`. */
  function AboveThreshold(rs: seq<Scored>): (r: seq<Scored>)
    ensures forall e :: e in r <==> e in rs && e.score > THRESHOLD
    ensures forall x :: x > THRESHOLD ==> WithScore(r, x) == WithScore(rs, x)
    ensures Subseq(r, rs)
  {
    if rs == [] then []
    else
      var rest := AboveThreshold(rs[1..]);
      if rs[0].score > THRESHOLD then [rs[0]] + rest else rest
  }

  /** The entries of `rs` whose score is exactly `x`, in their order in `rs`. */
  function WithScore(rs: seq<Scored>, x: real): seq<Scored> {
    if rs == [] then []
    else if rs[0].score == x then [rs[0]] + WithScore(rs[1..], x)
    else WithScore(rs[1..], x)
  }

  /** Scores never increase along the list. */
  predicate SortedDesc(rs: seq<Scored>) {
    forall i, j :: 0 <= i < j < |rs| ==> rs[i].score >= rs[j].score
  }

  /**
   * Places `e` before the first entry whose score is not above its own, which
   * is where a stable descending sort puts an element that came first.
   */
  function Insert(e: Scored, l: seq<Scored>): (r: seq<Scored>)
    ensures multiset(r) == multiset(l) + multiset{e}
  {
    if l == [] || e.score >= l[0].score then [e] + l
    else
      HeadTail(l);
      [l[0]] + Insert(e, l[1..])
  }

  lemma {:induction false} InsertSorted(e: Scored, l: seq<Scored>)
    requires SortedDesc(l)
    ensures SortedDesc(Insert(e, l))
  {
    if l != [] && e.score < l[0].score {
      var rest := Insert(e, l[1..]);
      InsertSorted(e, l[1..]);
      forall y | y in rest ensures l[0].score >= y.score {
        assert y in multiset(rest);
        if y != e {
          assert y in l[1..];
        }
      }
    }
  }

  lemma {:induction false} InsertStable(e: Scored, l: seq<Scored>, x: real)
    ensures WithScore(Insert(e, l), x) == (if e.score == x then [e] else []) + WithScore(l, x)
  {
    if l != [] && e.score < l[0].score {
      InsertStable(e, l[1..], x);
      assert ([l[0]] + Insert(e, l[1..]))[1..] == Insert(e, l[1..]);
    } else {
      assert ([e] + l)[1..] == l;
    }
  }

  /**
   * `.sort((a, b) => b.score - a.score)`: a stable sort by descending score.
   * The result is ordered, is a permutation of the input, and keeps the input
   * order among entries of equal score.
   */
  function SortDesc(rs: seq<Scored>): (r: seq<Scored>)
    ensures SortedDesc(r)
    ensures multiset(r) == multiset(rs)
    ensures forall x :: WithScore(r, x) == WithScore(rs, x)
  {
    if rs == [] then []
    else
      var rest := SortDesc(rs[1..]);
      HeadTail(rs);
      InsertSorted(rs[0], rest);
      forall x ensures WithScore(Insert(rs[0], rest), x) == WithScore(rs, x) {
        InsertStable(rs[0], rest, x);
      }
      Insert(rs[0], rest)
  }

  /**
   * The ranked candidates for a normalized query: exactly the records scoring
   * above 0.4, best first, and records of equal score in registry order.
   */
  function Ranked(query: string, vips: seq<Vip>): (r: seq<Scored>)
    ensures forall e :: e in r <==> e in ScoreAll(query, vips) && e.score > THRESHOLD
    ensures SortedDesc(r)
    ensures forall x :: x > THRESHOLD ==> WithScore(r, x) == WithScore(ScoreAll(query, vips), x)
  {
    var kept := AboveThreshold(ScoreAll(query, vips));
    SameMembers(SortDesc(kept), kept);
    SortDesc(kept)
  }

  /** Two sequences with the same elements counted with multiplicity have the same members. */
  lemma SameMembers<T>(a: seq<T>, b: seq<T>)
    requires multiset(a) == multiset(b)
    ensures forall x :: x in a <==> x in b
  {
    assert forall x :: x in a <==> x in multiset(a);
    assert forall x :: x in b <==> x in multiset(b);
  }

  /**
   * `results[0]`, when there is one. There is none exactly when no record
   * scores above 0.4; otherwise it is the record at the first index with the
   * highest score.
   */
  function BestMatch(query: string, vips: seq<Vip>): (r: Option<Vip>)
    ensures r == None <==> forall k :: 0 <= k < |vips| ==> ScoreOf(query, vips[k]) <= THRESHOLD
    ensures r.Some? ==> exists k :: IsFirstBest(query, vips, k) && r.value == vips[k]
  {
    var rs := Ranked(query, vips);
    RankedEmptyIffAllLow(query, vips);
    if rs == [] then None
    else
      RankedHeadIsFirstBest(query, vips);
      Some(rs[0].vip)
  }

  /** The first entry scoring `x` is the entry at the first index scoring `x`. */
  lemma {:induction false} FirstWithScore(rs: seq<Scored>, x: real)
    requires WithScore(rs, x) != []
    ensures exists k :: FirstAt(rs, x, k)
  {
    if rs[0].score == x {
      assert FirstAt(rs, x, 0);
    } else {
      FirstWithScore(rs[1..], x);
      var k :| FirstAt(rs[1..], x, k);
      assert FirstAt(rs, x, k + 1);
    }
  }

  /** Index `k` is the first entry of `rs` whose score is `x`, and `WithScore` starts with it. */
  predicate FirstAt(rs: seq<Scored>, x: real, k: int) {
    0 <= k < |rs| && rs[k].score == x && WithScore(rs, x) != [] && WithScore(rs, x)[0] == rs[k]
    && forall m :: 0 <= m < k ==> rs[m].score != x
  }

  /**
   * Record `k` is the first best candidate: it scores above the threshold,
   * no record scores more, and every earlier record scores strictly less.
   */
  predicate IsFirstBest(query: string, vips: seq<Vip>, k: int) {
    0 <= k < |vips| && ScoreOf(query, vips[k]) > THRESHOLD
    && (forall m :: 0 <= m < |vips| ==> ScoreOf(query, vips[m]) <= ScoreOf(query, vips[k]))
    && (forall m :: 0 <= m < k ==> ScoreOf(query, vips[m]) < ScoreOf(query, vips[k]))
  }

  /** The ranking is empty exactly when no record scores above 0.4. */
  lemma RankedEmptyIffAllLow(query: string, vips: seq<Vip>)
    ensures Ranked(query, vips) == [] <==> forall k :: 0 <= k < |vips| ==> ScoreOf(query, vips[k]) <= THRESHOLD
  {
    var all := ScoreAll(query, vips);
    if Ranked(query, vips) == [] {
      forall k | 0 <= k < |vips| ensures ScoreOf(query, vips[k]) <= THRESHOLD {
        assert all[k] in all;
      }
    } else {
      var top := Ranked(query, vips)[0];
      assert top in Ranked(query, vips);
      var k :| 0 <= k < |all| && all[k] == top;
    }
  }

  /** The head of a list sorted by descending score scores at least as much as every entry. */
  lemma HeadIsMax(r: seq<Scored>)
    requires SortedDesc(r) && r != []
    ensures forall e :: e in r ==> e.score <= r[0].score
  {
    forall e | e in r ensures e.score <= r[0].score {
      var i :| 0 <= i < |r| && r[i] == e;
    }
  }

  /** The head of the ranking scores at least as much as every record. */
  lemma TopIsMaximal(query: string, vips: seq<Vip>)
    requires Ranked(query, vips) != []
    ensures forall m :: 0 <= m < |vips| ==> ScoreOf(query, vips[m]) <= Ranked(query, vips)[0].score
  {
    var all := ScoreAll(query, vips);
    var r := Ranked(query, vips);
    HeadIsMax(r);
    assert r[0] in r;
    forall m | 0 <= m < |vips| ensures ScoreOf(query, vips[m]) <= r[0].score {
      assert all[m] in all;
    }
  }

  /**
   * The head of a non-empty ranking is the record at the first index with the
   * highest score, and that score is above 0.4.
   */
  lemma RankedHeadIsFirstBest(query: string, vips: seq<Vip>)
    requires Ranked(query, vips) != []
    ensures exists k :: IsFirstBest(query, vips, k) && Ranked(query, vips)[0].vip == vips[k]
  {
    var all := ScoreAll(query, vips);
    var r := Ranked(query, vips);
    TopIsMaximal(query, vips);
    var top := r[0];
    assert top in r;
    var x := top.score;
    assert WithScore(r, x) != [] && WithScore(r, x)[0] == top by {
      assert r == [top] + r[1..];
    }
    FirstWithScore(all, x);
    var k :| FirstAt(all, x, k);
    assert IsFirstBest(query, vips, k);
  }

  /**
   * A record whose normalized name equals the query up to case is found, and
   * the best match then also scores the full 1.
   */
  lemma ExactNameFound(query: string, vips: seq<Vip>, k: int)
    requires 0 <= k < |vips| && Lower(query) == Lower(Normalize(vips[k].fullName))
    ensures BestMatch(query, vips).Some?
    ensures ScoreOf(query, BestMatch(query, vips).value) == 1.0
  {
    var full := ScoreOf(query, vips[k]);
    assert full == 1.0;
    var best := BestMatch(query, vips);
    assert best.Some? by {
      assert !(full <= THRESHOLD);
    }
    var b :| IsFirstBest(query, vips, b) && best.value == vips[b];
    assert full <= ScoreOf(query, vips[b]) <= 1.0;
  }

  /** An empty registry never yields a match. */
  lemma NoRecordsNoMatch(query: string)
    ensures BestMatch(query, []) == None
  {
  }

  // The two longer answers are written as two concatenated pieces so that
  // the verifier can read their first characters, which tell them apart.
  const NOT_FOUND: string :=
    "I'm sorry, " + "I couldn't find a record matching that name. Please try again with a different spelling or more details."
  const CONNECTED: string := "Yes, we've connected with "
  const NOT_YET: string := "Based on our records, " + "we haven't yet provided any documents to "
  const NOTE_PREFIX: string := " We last noted contact during: \""

  /** The optional clause about the notes: present only for non-empty notes. */
  function NoteInfo(notes: string): string {
    if notes == [] then [] else NOTE_PREFIX + notes + "\""
  }

  /** `(Position, State)`, as both replies print it after the name. */
  function Details(v: Vip): string {
    " (" + v.position + ", " + v.state + ")"
  }

  /** The quoted book title and the date it was received. */
  function BookClause(v: Vip): string {
    "\"" + v.bookTitle + "\" on " + v.dateReceived + "."
  }

  /** The reply for a book that was handed over. */
  function ReceivedReply(v: Vip): string {
    CONNECTED + v.fullName + Details(v) + ". Our records show they received the book "
      + BookClause(v) + NoteInfo(v.notes)
  }

  /** The reply for a book not yet handed over. */
  function PendingReply(v: Vip): string {
    NOT_YET + v.fullName + Details(v) + "."
  }

  /**
   * The bot's reply for the outcome of a search: the not-found text exactly
   * when there is no match, and otherwise an answer that opens by saying
   * whether the matched person received the book and naming them.
   */
  function Reply(best: Option<Vip>): (r: string)
    ensures r == NOT_FOUND <==> best == None
    ensures best.Some? && best.value.received == Yes ==> StartsWith(r, CONNECTED + best.value.fullName)
    ensures best.Some? && best.value.received == No ==> StartsWith(r, NOT_YET + best.value.fullName)
  {
    match best
    case None => NOT_FOUND
    case Some(v) =>
      if v.received == Yes then
        ReceivedReplyOpening(v);
        OpeningDiffers(ReceivedReply(v), CONNECTED + v.fullName);
        ReceivedReply(v)
      else
        PendingReplyContent(v);
        OpeningDiffers(PendingReply(v), NOT_YET + v.fullName);
        PendingReply(v)
  }

  /** A text opening with the first character of either answer is not the not-found text. */
  lemma OpeningDiffers(r: string, head: string)
    requires StartsWith(r, head) && head != [] && (head[0] == 'Y' || head[0] == 'B')
    ensures r != NOT_FOUND
  {
    assert r[0] == r[..|head|][0] == head[0];
    assert NOT_FOUND[0] == 'I';
  }

  /** The answer for a handed-over book starts by naming the person. */
  lemma ReceivedReplyOpening(v: Vip)
    ensures StartsWith(ReceivedReply(v), CONNECTED + v.fullName)
    ensures (CONNECTED + v.fullName)[0] == 'Y'
  {
    var head := CONNECTED + v.fullName;
    assert StartsWith(head, head);
    StartsWithExtend(head, head, Details(v));
    StartsWithExtend(head + Details(v), head, ". Our records show they received the book ");
    StartsWithExtend(head + Details(v) + ". Our records show they received the book ", head, BookClause(v));
    StartsWithExtend(head + Details(v) + ". Our records show they received the book " + BookClause(v), head, NoteInfo(v.notes));
  }

  /** For a record that received the book the reply holds the quoted title and the date. */
  lemma ReceivedReplyBook(v: Vip)
    requires v.received == Yes
    ensures Contains(Reply(Some(v)), "\"" + v.bookTitle + "\" on " + v.dateReceived + ".")
  {
    var head := CONNECTED + v.fullName + Details(v) + ". Our records show they received the book ";
    ContainsMiddle(head, BookClause(v), NoteInfo(v.notes));
  }

  /** For a record that received the book the reply ends with the notes clause exactly when the notes are non-empty. */
  lemma ReceivedReplyNotes(v: Vip)
    requires v.received == Yes
    ensures v.notes != [] <==> EndsWith(Reply(Some(v)), NOTE_PREFIX + v.notes + "\"")
  {
    var front := CONNECTED + v.fullName + Details(v) + ". Our records show they received the book " + BookClause(v);
    var r := Reply(Some(v));
    assert r == front + NoteInfo(v.notes);
    if v.notes == [] {
      assert r[|r| - 1] == BookClause(v)[|BookClause(v)| - 1] == '.';
    }
  }

  /** The answer for a book not yet handed over is the "not yet provided" text naming the person and their details. */
  lemma PendingReplyContent(v: Vip)
    ensures StartsWith(PendingReply(v), NOT_YET + v.fullName)
    ensures EndsWith(PendingReply(v), Details(v) + ".")
    ensures (NOT_YET + v.fullName)[0] == 'B'
  {
    var r := PendingReply(v);
    var head := NOT_YET + v.fullName;
    assert r == head + (Details(v) + ".");
    assert r[..|head|] == head;
  }
}
