/** Bounded selection of the best-scoring rows by insertion into two parallel arrays
    (codecs/qihse_trinary_tryte_codec.c). */
module TopK {

  datatype Candidate = Candidate(score: int, row: nat)

  /** Higher score first, lower row first among equals. */
  predicate Better(a: Candidate, b: Candidate) {
    a.score > b.score || (a.score == b.score && a.row < b.row)
  }

  predicate Ranked(sel: seq<Candidate>) {
    forall i, j :: 0 <= i < j < |sel| ==> Better(sel[i], sel[j])
  }

  predicate Chosen(sel: seq<Candidate>, row: nat) {
    exists i :: 0 <= i < |sel| && sel[i].row == row
  }

  predicate Beaten(sel: seq<Candidate>, c: Candidate) {
    forall i :: 0 <= i < |sel| ==> Better(sel[i], c)
  }

  /** The first `min(k, rows)` rows under `Better`, without saying how to find them. */
  ghost predicate IsTopK(scores: seq<int>, sel: seq<Candidate>, k: nat) {
    && |sel| == (if |scores| < k then |scores| else k)
    && Ranked(sel)
    && (forall i :: 0 <= i < |sel| ==> sel[i].row < |scores| && sel[i].score == scores[sel[i].row])
    && (forall r: nat :: r < |scores| && !Chosen(sel, r) ==> |sel| == k && Beaten(sel, Candidate(scores[r], r)))
  }

  /** The best rows with their scores, higher scores first and lower rows first among equals: as many
      as asked for or as there are, and every row left out comes after every row taken. */
  ghost predicate BestRows(rows: seq<nat>, found: seq<int>, scores: seq<int>, k: nat) {
    && |rows| == |found| == (if |scores| < k then |scores| else k)
    && (forall i :: 0 <= i < |rows| ==> rows[i] < |scores| && found[i] == scores[rows[i]])
    && (forall i, j :: 0 <= i < j < |rows| ==> found[i] > found[j] || (found[i] == found[j] && rows[i] < rows[j]))
    && (forall r: nat, i :: r < |scores| && 0 <= i < |rows| && r !in rows ==>
          scores[r] < found[i] || (scores[r] == found[i] && rows[i] < r))
    && (forall r: nat :: r < |scores| && r !in rows ==> |rows| == k)
  }

  lemma TopKIsBest(scores: seq<int>, sel: seq<Candidate>, k: nat, rows: seq<nat>, found: seq<int>)
    requires IsTopK(scores, sel, k) && |rows| == |found| == |sel|
    requires forall i :: 0 <= i < |sel| ==> rows[i] == sel[i].row && found[i] == sel[i].score
    ensures BestRows(rows, found, scores, k)
  {
    forall r: nat | r < |scores| && r !in rows
      ensures |rows| == k && forall i :: 0 <= i < |rows| ==> Better(sel[i], Candidate(scores[r], r))
    {
      forall i | 0 <= i < |sel| ensures sel[i].row != r { assert rows[i] in rows; }
      assert !Chosen(sel, r);
    }
    forall i, j | 0 <= i < j < |rows| ensures found[i] > found[j] || (found[i] == found[j] && rows[i] < rows[j]) {
      assert Better(sel[i], sel[j]);
    }
  }

  /** Where the insertion loop stops, walking up from the end. */
  function Rank(sel: seq<Candidate>, c: Candidate): (p: nat)
    ensures p <= |sel|
    ensures forall i :: p <= i < |sel| ==> Better(c, sel[i])
    ensures p > 0 ==> !Better(c, sel[p - 1])
  {
    if sel != [] && Better(c, sel[|sel| - 1]) then Rank(sel[..|sel| - 1], c) else |sel|
  }

  /** The selection with one more candidate at place `p`. */
  function With(sel: seq<Candidate>, c: Candidate, p: nat): (longer: seq<Candidate>)
    requires p <= |sel|
    ensures |longer| == |sel| + 1
    ensures forall i :: 0 <= i < |longer| ==> longer[i] == (if i < p then sel[i] else if i == p then c else sel[i - 1])
  {
    sel[..p] + [c] + sel[p..]
  }

  /** Selection after one more candidate. */
  function Push(sel: seq<Candidate>, c: Candidate, k: nat): seq<Candidate> {
    var p := Rank(sel, c);
    if p >= k then sel else With(sel, c, p)[..if |sel| < k then |sel| + 1 else k]
  }

  lemma PushRanked(sel: seq<Candidate>, c: Candidate, k: nat)
    requires Ranked(sel) && forall i :: 0 <= i < |sel| ==> sel[i].row < c.row
    ensures Ranked(Push(sel, c, k))
  {
    var p := Rank(sel, c);
    forall i | 0 <= i < p ensures Better(sel[i], c) {
      if i < p - 1 { assert Better(sel[i], sel[p - 1]); }
    }
    var longer := With(sel, c, p);
    assert Ranked(longer) by {
      forall i, j | 0 <= i < j < |longer| ensures Better(longer[i], longer[j]) {}
    }
  }

  /** The old candidates the new selection still holds, and the new one. */
  lemma PushMembers(sel: seq<Candidate>, c: Candidate, k: nat, i: nat)
    requires |sel| <= k && i < |Push(sel, c, k)|
    ensures var out, p := Push(sel, c, k), Rank(sel, c);
            if p < k && i == p then out[i] == c
            else out[i] == sel[if p < k && i > p then i - 1 else i]
  {
    var p := Rank(sel, c);
    if p < k { assert Push(sel, c, k)[i] == With(sel, c, p)[i]; }
  }

  lemma ChosenAt(sel: seq<Candidate>, i: nat)
    requires i < |sel|
    ensures Chosen(sel, sel[i].row)
  {}

  /** A chosen row stays chosen, unless it was the last of a full selection. */
  lemma PushDrops(sel: seq<Candidate>, c: Candidate, k: nat, r: nat)
    requires |sel| <= k && Chosen(sel, r)
    ensures Chosen(Push(sel, c, k), r) || (|sel| == k > 0 && sel[k - 1].row == r && Rank(sel, c) < k)
  {
    var i :| 0 <= i < |sel| && sel[i].row == r;
    var out := Push(sel, c, k);
    var at := if Rank(sel, c) < k && i >= Rank(sel, c) then i + 1 else i;
    if at < |out| {
      PushMembers(sel, c, k, at);
      ChosenAt(out, at);
    }
  }

  lemma PushBeats(scores: seq<int>, sel: seq<Candidate>, k: nat, score: int, r: nat)
    requires IsTopK(scores, sel, k)
    requires r <= |scores| && !Chosen(Push(sel, Candidate(score, |scores|), k), r)
    ensures Beaten(Push(sel, Candidate(score, |scores|), k), Candidate((scores + [score])[r], r))
    ensures |sel| == k
  {
    var c := Candidate(score, |scores|);
    var out, p := Push(sel, c, k), Rank(sel, c);
    if p < k { assert out[p] == c; }
    if r < |scores| && Chosen(sel, r) { PushDrops(sel, c, k, r); }
    forall i | 0 <= i < |out| ensures Better(out[i], Candidate((scores + [score])[r], r)) {
      PushMembers(sel, c, k, i);
      if r == |scores| {
        if i < p - 1 { assert Better(sel[i], sel[p - 1]); }
      }
    }
  }

  /** One more row keeps the selection exact. */
  lemma PushKeepsTopK(scores: seq<int>, sel: seq<Candidate>, k: nat, score: int)
    requires IsTopK(scores, sel, k)
    ensures IsTopK(scores + [score], Push(sel, Candidate(score, |scores|), k), k)
  {
    var c := Candidate(score, |scores|);
    var longer, out := scores + [score], Push(sel, c, k);
    PushRanked(sel, c, k);
    forall i | 0 <= i < |out| ensures out[i].row < |longer| && out[i].score == longer[out[i].row] {
      PushMembers(sel, c, k, i);
    }
    forall r: nat | r < |longer| && !Chosen(out, r) ensures |out| == k && Beaten(out, Candidate(longer[r], r)) {
      PushBeats(scores, sel, k, score, r);
    }
  }

  /** There is only one such selection. */
  lemma {:induction false} TopKUnique(scores: seq<int>, a: seq<Candidate>, b: seq<Candidate>, k: nat, n: nat)
    requires IsTopK(scores, a, k) && IsTopK(scores, b, k) && n <= |a|
    ensures |a| == |b| && a[..n] == b[..n]
  {
    if n > 0 {
      TopKUnique(scores, a, b, k, n - 1);
      NextAgrees(scores, a, b, k, n - 1);
      NextAgrees(scores, b, a, k, n - 1);
      assert a[n - 1] == b[n - 1];
      assert a[..n] == a[..n - 1] + [a[n - 1]];
      assert b[..n] == b[..n - 1] + [b[n - 1]];
    }
  }

  lemma NextAgrees(scores: seq<int>, a: seq<Candidate>, b: seq<Candidate>, k: nat, n: nat)
    requires IsTopK(scores, a, k) && IsTopK(scores, b, k) && n < |a| && a[..n] == b[..n]
    ensures a[n] == b[n] || Better(b[n], a[n])
  {
    var r := a[n].row;
    if Chosen(b, r) {
      var j :| 0 <= j < |b| && b[j].row == r;
      assert b[j] == a[n];
      assert forall i :: 0 <= i < n ==> b[i] == a[..n][i] && Better(b[i], a[n]);
      assert j >= n;
    } else {
      assert Beaten(b, Candidate(scores[r], r));
    }
  }

  /** The first `|sel|` entries of the arrays are the selection. */
  ghost predicate Holds(rows: array<nat>, scores: array<int>, sel: seq<Candidate>)
    reads rows, scores
  {
    && |sel| <= rows.Length && |sel| <= scores.Length
    && forall i :: 0 <= i < |sel| ==> rows[i] == sel[i].row && scores[i] == sel[i].score
  }

  method FindRank(rows: array<nat>, scores: array<int>, selected: nat, c: Candidate, ghost sel: seq<Candidate>)
    returns (at: nat)
    requires |sel| == selected && Holds(rows, scores, sel)
    ensures at == Rank(sel, c)
  {
    at := selected;
    assert sel[..at] == sel;
    while at > 0 && Better(c, Candidate(scores[at - 1], rows[at - 1]))
      invariant 0 <= at <= selected
      invariant Rank(sel, c) == Rank(sel[..at], c)
    {
      assert sel[..at][..at - 1] == sel[..at - 1];
      at := at - 1;
    }
  }

  /** Moves the entries from `at` on one place down; a full selection loses its last. */
  method ShiftDown(rows: array<nat>, scores: array<int>, at: nat, n: nat, ghost sel: seq<Candidate>)
    requires at < n <= rows.Length && n <= scores.Length && rows as object != scores
    requires n - 1 <= |sel| <= n && Holds(rows, scores, sel)
    modifies rows, scores
    ensures forall i :: 0 <= i < at ==> rows[i] == sel[i].row && scores[i] == sel[i].score
    ensures forall i :: at < i < n ==> rows[i] == sel[i - 1].row && scores[i] == sel[i - 1].score
  {
    var move := n - 1;
    while move > at
      invariant at <= move < n
      invariant forall i :: 0 <= i <= move && i < |sel| ==> rows[i] == sel[i].row && scores[i] == sel[i].score
      invariant forall i :: move < i < n ==> rows[i] == sel[i - 1].row && scores[i] == sel[i - 1].score
    {
      rows[move] := rows[move - 1];
      scores[move] := scores[move - 1];
      move := move - 1;
    }
  }

  /** The insertion step both selectors share. */
  method InsertCandidate(rows: array<nat>, scores: array<int>, selected: nat, k: nat, row: nat, score: int,
                         ghost sel: seq<Candidate>)
    returns (selected': nat)
    requires selected <= k <= rows.Length && k <= scores.Length && rows as object != scores
    requires |sel| == selected && Holds(rows, scores, sel)
    modifies rows, scores
    ensures selected' == |Push(sel, Candidate(score, row), k)| <= k
    ensures Holds(rows, scores, Push(sel, Candidate(score, row), k))
  {
    var at := FindRank(rows, scores, selected, Candidate(score, row), sel);
    if at >= k {
      return selected;
    }
    selected' := if selected < k then selected + 1 else selected;
    ShiftDown(rows, scores, at, selected', sel);
    rows[at] := row;
    scores[at] := score;
    ghost var out := Push(sel, Candidate(score, row), k);
    forall i: nat | i < selected' ensures rows[i] == out[i].row && scores[i] == out[i].score {
      PushMembers(sel, Candidate(score, row), k, i);
    }
  }
}
