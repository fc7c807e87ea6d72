/**
  The cross-run history store `Deduplicator`: a list of previously saved
  article records, the duplicate test against it (same link, or a title at
  least half similar), the batch save that appends every non-duplicate in
  turn, and the age-based pruning of the list.

  Reading and writing the CSV file are left out: the records loaded at start
  are the constructor's input, and the current time is a parameter.
*/
module Dedup {
  import opened Wrappers
  import opened Similarity

  /** Titles at least this similar to a saved one are duplicates. */
  const DuplicateThreshold: real := 0.5

  /** Timestamps are whole seconds. */
  const SecondsPerDay: int := 86400

  /**
    The `saved_at` column of a record: missing, a parseable timestamp, or a
    value that `datetime.fromisoformat` rejects.
  */
  datatype SavedAt = Absent | At(time: int) | Unparseable

  /** A saved article; the columns not used by the history store are not modelled. */
  datatype Record = Record(titleEn: string, link: string, savedAt: SavedAt)

  // ---------------------------------------------------------------- duplicate test

  /** The link scan: some saved record has exactly this link. */
  function LinkSeen(history: seq<Record>, link: string): (r: bool)
    ensures r <==> exists i :: 0 <= i < |history| && history[i].link == link
  {
    if history == [] then false
    else
      assert forall i :: 1 <= i < |history| ==> history[1..][i - 1] == history[i];
      history[0].link == link || LinkSeen(history[1..], link)
  }

  /** The title scan: some saved title is at least `DuplicateThreshold` similar. */
  function TitleSeen(ratio: Scorer, history: seq<Record>, title: string): (r: bool)
    ensures r <==> exists i :: 0 <= i < |history| && Similar(ratio, title, history[i].titleEn, DuplicateThreshold)
  {
    if history == [] then false
    else
      assert forall i :: 1 <= i < |history| ==> history[1..][i - 1] == history[i];
      Similar(ratio, title, history[0].titleEn, DuplicateThreshold) || TitleSeen(ratio, history[1..], title)
  }

  /**
    An article is a duplicate of the history when some record has the same
    link, or else some record's title is at least half similar to its title.
    Nothing is a duplicate of an empty history.
  */
  function IsDuplicate(ratio: Scorer, history: seq<Record>, article: Record): (r: bool)
    ensures history == [] ==> !r
    ensures r <==>
      || (exists i :: 0 <= i < |history| && history[i].link == article.link)
      || (exists i :: 0 <= i < |history| && Similar(ratio, article.titleEn, history[i].titleEn, DuplicateThreshold))
  {
    LinkSeen(history, article.link) || TitleSeen(ratio, history, article.titleEn)
  }

  /** The record as it is appended: `save_article` sets its `saved_at` to now. */
  function Stamp(article: Record, now: int): Record {
    article.(savedAt := At(now))
  }

  // ---------------------------------------------------------------- batch save

  /**
    The records a batch adds to `history`, in batch order: each article that
    is not a duplicate of the history as extended by the earlier ones,
    stamped with `now`.
  */
  function Saved(ratio: Scorer, history: seq<Record>, batch: seq<Record>, now: int): seq<Record>
    decreases |batch|
  {
    if batch == [] then []
    else
      var prev := Saved(ratio, history, batch[..|batch| - 1], now);
      var article := batch[|batch| - 1];
      if IsDuplicate(ratio, history + prev, article) then prev else prev + [Stamp(article, now)]
  }

  /** Saving the batch up to `i` extends saving up to `i - 1` by the `i`-th article's turn. */
  lemma SavedStep(ratio: Scorer, history: seq<Record>, batch: seq<Record>, i: nat, now: int)
    requires i < |batch|
    ensures Saved(ratio, history, batch[..i + 1], now) ==
      var prev := Saved(ratio, history, batch[..i], now);
      if IsDuplicate(ratio, history + prev, batch[i]) then prev else prev + [Stamp(batch[i], now)]
  {
    assert batch[..i + 1][..i] == batch[..i];
  }

  /**
    Each saved record was, when checked, not a duplicate of the history plus
    the records saved before it in the same batch; it is one of the batch's
    articles, stamped with `now`; and there are no more of them than articles.
  */
  lemma {:induction false} SavedAreFresh(ratio: Scorer, history: seq<Record>, batch: seq<Record>, now: int)
    ensures |Saved(ratio, history, batch, now)| <= |batch|
    ensures forall k :: 0 <= k < |Saved(ratio, history, batch, now)| ==>
              && !IsDuplicate(ratio, history + Saved(ratio, history, batch, now)[..k], Saved(ratio, history, batch, now)[k])
              && Saved(ratio, history, batch, now)[k].savedAt == At(now)
              && exists j :: 0 <= j < |batch| && Saved(ratio, history, batch, now)[k] == Stamp(batch[j], now)
    decreases |batch|
  {
    if batch != [] {
      var init := batch[..|batch| - 1];
      var prev := Saved(ratio, history, init, now);
      var s := Saved(ratio, history, batch, now);
      SavedAreFresh(ratio, history, init, now);
      forall k | 0 <= k < |s|
        ensures && !IsDuplicate(ratio, history + s[..k], s[k])
                && s[k].savedAt == At(now)
                && exists j :: 0 <= j < |batch| && s[k] == Stamp(batch[j], now)
      {
        if k < |prev| {
          assert s[..k] == prev[..k];
          assert s[k] == prev[k];
          var j :| 0 <= j < |init| && prev[k] == Stamp(init[j], now);
          assert batch[j] == init[j];
        } else {
          assert s[..k] == prev;
          assert s[k] == Stamp(batch[|batch| - 1], now);
        }
      }
    }
  }

  /**
    No saved record repeats the link of a history record or of another saved
    record: two articles with one link in a batch are saved at most once.
  */
  lemma SavedLinksDistinct(ratio: Scorer, history: seq<Record>, batch: seq<Record>, now: int)
    ensures forall i, k :: 0 <= i < |history| && 0 <= k < |Saved(ratio, history, batch, now)| ==>
              history[i].link != Saved(ratio, history, batch, now)[k].link
    ensures forall i, k :: 0 <= i < k < |Saved(ratio, history, batch, now)| ==>
              Saved(ratio, history, batch, now)[i].link != Saved(ratio, history, batch, now)[k].link
  {
    var s := Saved(ratio, history, batch, now);
    SavedAreFresh(ratio, history, batch, now);
    forall i, k | 0 <= i < |history| && 0 <= k < |s|
      ensures history[i].link != s[k].link
    {
      assert !IsDuplicate(ratio, history + s[..k], s[k]);
      assert (history + s[..k])[i] == history[i];
    }
    forall i, k | 0 <= i < k < |s|
      ensures s[i].link != s[k].link
    {
      assert !IsDuplicate(ratio, history + s[..k], s[k]);
      assert (history + s[..k])[|history| + i] == s[i];
    }
  }

  /** The saved records of a prefix of the batch are a prefix of the batch's saved records. */
  lemma {:induction false} SavedPrefix(ratio: Scorer, history: seq<Record>, batch: seq<Record>, n: nat, now: int)
    requires n <= |batch|
    ensures Saved(ratio, history, batch[..n], now) <= Saved(ratio, history, batch, now)
    decreases |batch|
  {
    if n < |batch| {
      assert batch[..|batch| - 1][..n] == batch[..n];
      SavedPrefix(ratio, history, batch[..|batch| - 1], n, now);
    } else {
      assert batch[..n] == batch;
    }
  }

  /**
    Every article that is not a duplicate of the history plus the records
    saved before it is saved, stamped with `now`: with `SavedAreFresh`,
    the saved records are exactly the articles that pass at their turn.
  */
  lemma SavedComplete(ratio: Scorer, history: seq<Record>, batch: seq<Record>, j: nat, now: int)
    requires j < |batch|
    requires !IsDuplicate(ratio, history + Saved(ratio, history, batch[..j], now), batch[j])
    ensures Stamp(batch[j], now) in Saved(ratio, history, batch, now)
  {
    SavedStep(ratio, history, batch, j, now);
    SavedPrefix(ratio, history, batch, j + 1, now);
    var s := Saved(ratio, history, batch[..j + 1], now);
    assert s[|s| - 1] == Stamp(batch[j], now);
  }

  // ---------------------------------------------------------------- pruning

  /**
    Whether a record survives pruning: its `saved_at`, or `now` when it has
    none, is strictly after the cutoff.
  */
  predicate IsRecent(r: Record, cutoff: int, now: int) {
    match r.savedAt
    case Absent => now > cutoff
    case At(t) => t > cutoff
    case Unparseable => false
  }

  predicate AllParseable(records: seq<Record>) {
    forall i :: 0 <= i < |records| ==> !records[i].savedAt.Unparseable?
  }

  /** The records that survive pruning, in their original order. */
  function Kept(records: seq<Record>, cutoff: int, now: int): (r: seq<Record>)
    ensures |r| <= |records|
    decreases |records|
  {
    if records == [] then []
    else
      var last := records[|records| - 1];
      var init := records[..|records| - 1];
      Kept(init, cutoff, now) + if IsRecent(last, cutoff, now) then [last] else []
  }

  /** A record survives pruning exactly when it is in the history and recent. */
  lemma {:induction false} KeptMembers(records: seq<Record>, cutoff: int, now: int)
    ensures forall x :: x in Kept(records, cutoff, now) <==> x in records && IsRecent(x, cutoff, now)
    decreases |records|
  {
    if records != [] {
      var init := records[..|records| - 1];
      KeptMembers(init, cutoff, now);
      assert records == init + [records[|records| - 1]];
    }
  }

  lemma KeptSnoc(records: seq<Record>, r: Record, cutoff: int, now: int)
    ensures Kept(records + [r], cutoff, now) == Kept(records, cutoff, now) + if IsRecent(r, cutoff, now) then [r] else []
  {
    assert (records + [r])[..|records|] == records;
  }

  /** Pruning preserves order: the kept records of a concatenation are the concatenation of the kept records. */
  lemma {:induction false} KeptConcat(xs: seq<Record>, ys: seq<Record>, cutoff: int, now: int)
    ensures Kept(xs + ys, cutoff, now) == Kept(xs, cutoff, now) + Kept(ys, cutoff, now)
    decreases |ys|
  {
    if ys == [] {
      assert xs + ys == xs;
    } else {
      var init := ys[..|ys| - 1];
      assert (xs + ys)[..|xs + ys| - 1] == xs + init;
      assert (xs + ys)[|xs + ys| - 1] == ys[|ys| - 1];
      KeptConcat(xs, init, cutoff, now);
    }
  }

  /** When nothing is pruned the list is unchanged, so replacing it only when something was removed is exact. */
  lemma {:induction false} KeptAllIsIdentity(records: seq<Record>, cutoff: int, now: int)
    requires |Kept(records, cutoff, now)| == |records|
    ensures Kept(records, cutoff, now) == records
    decreases |records|
  {
    if records != [] {
      var init := records[..|records| - 1];
      var last := records[|records| - 1];
      assert records == init + [last];
      assert |Kept(init, cutoff, now)| <= |init|;
      assert IsRecent(last, cutoff, now) && |Kept(init, cutoff, now)| == |init|;
      KeptAllIsIdentity(init, cutoff, now);
    }
  }

  class Deduplicator {
    /** The history: the records loaded at start, then every record saved since. */
    var seenArticles: seq<Record>

    constructor (loaded: seq<Record>)
      ensures seenArticles == loaded
    {
      seenArticles := loaded;
    }

    /**
      `save_article`: the row it writes for an article, None when the article
      is a duplicate. The in-memory history is left as it is.
    */
    method SaveArticle(ratio: Scorer, article: Record, now: int) returns (row: Option<Record>)
      ensures row.Some? <==> !IsDuplicate(ratio, seenArticles, article)
      ensures row.Some? ==> row.value == Stamp(article, now)
    {
      if IsDuplicate(ratio, seenArticles, article) {
        return None;
      }
      row := Some(Stamp(article, now));
    }

    /**
      Saves a batch: each article that is not a duplicate of the history at
      the time it is checked is written and appended, so later articles of the
      batch are checked against it; returns how many were saved.
    */
    method SaveArticles(ratio: Scorer, batch: seq<Record>, now: int) returns (count: nat)
      modifies this
      ensures seenArticles == old(seenArticles) + Saved(ratio, old(seenArticles), batch, now)
      ensures count == |Saved(ratio, old(seenArticles), batch, now)|
    {
      ghost var history := seenArticles;
      count := 0;
      var i := 0;
      while i < |batch|
        invariant 0 <= i <= |batch|
        invariant seenArticles == history + Saved(ratio, history, batch[..i], now)
        invariant count == |Saved(ratio, history, batch[..i], now)|
      {
        SavedStep(ratio, history, batch, i, now);
        if !IsDuplicate(ratio, seenArticles, batch[i]) {
          var row := SaveArticle(ratio, batch[i], now);
          count := count + 1;
          seenArticles := seenArticles + [row.value];
        }
        i := i + 1;
      }
      assert batch[..i] == batch;
    }

    /**
      Drops the records saved `days` days or more before `now` (a record
      without `saved_at` counts as saved now). A record whose `saved_at`
      cannot be parsed aborts the clean-up and leaves the history unchanged;
      so does a clean-up that would remove nothing.
    */
    method CleanupOldArticles(now: int, days: int)
      modifies this
      ensures seenArticles ==
        if AllParseable(old(seenArticles)) then Kept(old(seenArticles), now - days * SecondsPerDay, now)
        else old(seenArticles)
    {
      var cutoff := now - days * SecondsPerDay;
      var records := seenArticles;
      var remaining := [];
      var i := 0;
      while i < |records|
        invariant 0 <= i <= |records|
        invariant seenArticles == records
        invariant AllParseable(records[..i])
        invariant remaining == Kept(records[..i], cutoff, now)
      {
        var r := records[i];
        if r.savedAt.Unparseable? {
          assert !AllParseable(records);
          return;
        }
        assert records[..i + 1] == records[..i] + [r];
        KeptSnoc(records[..i], r, cutoff, now);
        if IsRecent(r, cutoff, now) {
          remaining := remaining + [r];
        }
        i := i + 1;
      }
      assert records[..i] == records;
      if |remaining| < |records| {
        seenArticles := remaining;
      } else {
        KeptAllIsIdentity(records, cutoff, now);
      }
    }
  }
}
