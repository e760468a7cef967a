/**
 * `normalizeString` of the chat search: lower-case, trim, delete `.` and `,`,
 * split on whitespace runs, drop honorific words, join with single spaces.
 */
module Normalizer {
  import opened Text

  /** The title words removed before names are compared. */
  const HONORIFICS: seq<string> := ["mr", "ms", "mrs", "shri", "dr"]

  predicate IsHonorific(w: string) {
    w in HONORIFICS
  }

  /** A character that can appear in a normalized string: no `.`, no `,`, no upper-case letter. */
  predicate CleanChar(c: char) {
    c != '.' && c != ',' && !IsUpper(c)
  }

  /** No two adjacent spaces. */
  predicate NoDoubleSpace(s: string) {
    forall i :: 0 <= i < |s| - 1 ==> !(s[i] == ' ' && s[i + 1] == ' ')
  }

  /** Every piece strictly between the first and the last is non-empty. */
  predicate InteriorNonEmpty(ts: seq<string>) {
    forall k :: 0 < k < |ts| - 1 ==> ts[k] != []
  }

  /** `s.replace(/[.,]/g, '')`. */
  function StripPunctuation(s: string): (r: string)
    ensures forall c :: c in r <==> c in s && c != '.' && c != ','
    ensures forall c :: multiset(r)[c] == if c == '.' || c == ',' then 0 else multiset(s)[c]
    ensures Subseq(r, s)
  {
    if s == [] then []
    else
      var rest := StripPunctuation(s[1..]);
      assert rest != [] ==> rest[0] in rest;
      assert s == [s[0]] + s[1..];
      if s[0] == '.' || s[0] == ',' then rest else [s[0]] + rest
  }

  /** `words.filter(word => !honorifics.includes(word))`. */
  function DropHonorifics(ws: seq<string>): (r: seq<string>)
    ensures Subseq(r, ws)
    ensures forall w :: w in r <==> w in ws && !IsHonorific(w)
    ensures forall w :: multiset(r)[w] == if IsHonorific(w) then 0 else multiset(ws)[w]
  {
    assert ws != [] ==> ws == [ws[0]] + ws[1..];
    if ws == [] then []
    else if IsHonorific(ws[0]) then DropHonorifics(ws[1..])
    else [ws[0]] + DropHonorifics(ws[1..])
  }

  /** The words of `s` once it is lower-cased, trimmed and stripped of `.` and `,`. */
  function Words(s: string): seq<string> {
    Split(StripPunctuation(Trim(Lower(s))))
  }

  /** The words of `s` that survive the honorific filter. */
  function Kept(s: string): seq<string> {
    DropHonorifics(Words(s))
  }

  /**
   * `normalizeString`. The empty input, and an input whose every word is an
   * honorific, give the empty string; the output holds no `.`, no `,` and no
   * upper-case letter, no space-separated piece of it is an honorific, and it
   * never holds two spaces in a row.
   */
  function Normalize(s: string): (r: string)
    ensures s == [] ==> r == []
    ensures Kept(s) == [] ==> r == []
    ensures forall c :: c in r ==> CleanChar(c)
    ensures forall t :: t in SplitOnSpace(r) ==> !IsHonorific(t)
    ensures NoDoubleSpace(r)
  {
    if s == [] then []
    else
      var kept := Kept(s);
      WordsAreClean(s);
      JoinClean(kept);
      KeptHasNoHonorificPiece(s);
      SplitInteriorKept(s);
      JoinNoDoubleSpace(kept);
      Join(kept)
  }

  /** Every character of every word of `s` is clean and is not whitespace. */
  lemma WordsAreClean(s: string)
    ensures forall t, c :: t in Words(s) && c in t ==> CleanChar(c) && !IsSpace(c)
  {
    var lowered := Lower(s);
    var trimmed := Trim(lowered);
    var stripped := StripPunctuation(trimmed);
    assert forall c :: c in stripped ==> CleanChar(c);
  }

  lemma {:induction false} JoinClean(ts: seq<string>)
    requires forall t, c :: t in ts && c in t ==> CleanChar(c)
    ensures forall c :: c in Join(ts) ==> CleanChar(c)
  {
    if |ts| >= 2 {
      JoinClean(ts[1..]);
      assert ts[0] in ts;
    }
  }

  /** The pieces of the output are the surviving words, which are never honorifics. */
  lemma KeptHasNoHonorificPiece(s: string)
    requires s != []
    ensures forall t :: t in SplitOnSpace(Join(Kept(s))) ==> !IsHonorific(t)
  {
    WordsAreClean(s);
    NoHonorificPiece(Words(s));
  }

  lemma NoHonorificPiece(ws: seq<string>)
    requires forall t, c :: t in ws && c in t ==> !IsSpace(c)
    ensures forall t :: t in SplitOnSpace(Join(DropHonorifics(ws))) ==> !IsHonorific(t)
  {
    var kept := DropHonorifics(ws);
    if kept == [] {
      assert SplitOnSpace([]) == [[]];
    } else {
      SplitOnSpaceJoin(kept);
    }
  }

  /** Dropping elements keeps every piece but the last non-empty, if it was so before. */
  lemma {:induction false} DropHonorificsButLast(ws: seq<string>)
    requires forall k :: 0 <= k < |ws| - 1 ==> ws[k] != []
    ensures forall k :: 0 <= k < |DropHonorifics(ws)| - 1 ==> DropHonorifics(ws)[k] != []
  {
    if ws != [] {
      DropHonorificsButLast(ws[1..]);
      var tail := DropHonorifics(ws[1..]);
      if !IsHonorific(ws[0]) && tail != [] {
        assert |ws| >= 2 by {
          assert tail[0] in ws[1..];
        }
        assert ws[0] != [];
      }
    }
  }

  lemma {:induction false} DropHonorificsInterior(ws: seq<string>)
    requires InteriorNonEmpty(ws)
    ensures InteriorNonEmpty(DropHonorifics(ws))
  {
    if ws != [] {
      DropHonorificsButLast(ws[1..]);
    }
  }

  lemma SplitInteriorKept(s: string)
    ensures InteriorNonEmpty(Kept(s))
  {
    DropHonorificsInterior(Words(s));
  }

  /** Joining space-free pieces whose interior pieces are non-empty never makes two adjacent spaces. */
  lemma {:induction false} JoinNoDoubleSpace(ts: seq<string>)
    requires forall t, c :: t in ts && c in t ==> !IsSpace(c)
    requires InteriorNonEmpty(ts)
    ensures NoDoubleSpace(Join(ts))
  {
    if |ts| == 1 {
      assert ts[0] in ts;
      forall i | 0 <= i < |ts[0]| ensures ts[0][i] != ' ' {
        assert ts[0][i] in ts[0];
      }
    } else if |ts| >= 2 {
      var t := ts[0];
      var rest := ts[1..];
      var j := Join(rest);
      JoinNoDoubleSpace(rest);
      assert t in ts;
      var r := t + " " + j;
      assert Join(ts) == r;
      assert j == [] || j[0] != ' ' by {
        if j != [] {
          assert rest[0] in ts;
          if |rest| == 1 {
            assert j[0] in rest[0];
          } else {
            assert rest[0] != [];
            assert j[0] == rest[0][0];
            assert j[0] in rest[0];
          }
        }
      }
      forall i | 0 <= i < |r| - 1
        ensures !(r[i] == ' ' && r[i + 1] == ' ')
      {
        if i < |t| {
          assert r[i] == t[i];
          assert r[i] in t;
        } else if i > |t| {
          assert r[i] == j[i - |t| - 1] && r[i + 1] == j[i - |t|];
        }
      }
    }
  }

  /**
   * When some word survives, the space-separated pieces of the output are
   * exactly the surviving words, in the order they had in the input.
   */
  lemma NormalizePieces(s: string)
    requires Kept(s) != []
    ensures SplitOnSpace(Normalize(s)) == Kept(s)
    ensures Subseq(Kept(s), Words(s))
    ensures forall w :: w in Kept(s) <==> w in Words(s) && !IsHonorific(w)
  {
    WordsAreClean(s);
    SplitOnSpaceJoin(Kept(s));
  }

  lemma StripExample()
    ensures StripPunctuation("a .") == "a "
  {
    assert "a ."[1..] == " ." && " ."[1..] == ".";
    assert StripPunctuation(".") == [];
    assert StripPunctuation(" .") == " ";
  }

  lemma SplitExample()
    ensures Split("a ") == ["a", []]
  {
    assert " "[1..] == [];
    assert "a "[1..] == " ";
    var rest := Split(" ");
    assert rest == [[], []];
    assert ['a'] + rest[0] == "a";
    assert rest[1..] == [[]];
  }

  lemma WordsDotExample()
    ensures Words("a .") == ["a", []]
  {
    assert Lower("a .") == "a .";
    assert TrimStart("a .") == "a ." && TrimEnd("a .") == "a .";
    StripExample();
    SplitExample();
  }

  lemma DropExample()
    ensures DropHonorifics(["a", []]) == ["a", []]
  {
    assert !IsHonorific("a") && !IsHonorific([]);
    assert ["a", []][1..] == [[]];
  }

  lemma KeptDotExample()
    ensures Kept("a .") == ["a", []]
  {
    WordsDotExample();
    DropExample();
  }

  lemma JoinExample()
    ensures Join(["a", []]) == "a "
  {
  }

  lemma NormalizeDotExample()
    ensures Normalize("a .") == "a "
  {
    KeptDotExample();
    JoinExample();
  }

  lemma NormalizeSpaceExample()
    ensures Normalize("a ") == "a"
  {
    assert Lower("a ") == "a ";
    assert TrimStart("a ") == "a ";
    assert "a "[..1] == "a";
    assert TrimEnd("a ") == "a";
    assert StripPunctuation("a") == "a";
    assert Split("a") == ["a"];
    assert !IsHonorific("a");
    assert DropHonorifics(["a"]) == ["a"];
  }

  /**
   * Normalizing is not idempotent: a `.` after a space is deleted only after
   * trimming, so `"a ."` normalizes to `"a "`, which normalizes to `"a"`.
   */
  lemma NormalizeNotIdempotent()
    ensures Normalize("a .") == "a "
    ensures Normalize(Normalize("a .")) == "a"
  {
    NormalizeDotExample();
    NormalizeSpaceExample();
  }
}
