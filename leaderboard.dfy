/**
 * The shared leaderboard store (Games/leaderboard_core.py).
 *
 * The JSON file is abstracted to a value of `FileState`: missing, unreadable
 * (its text does not parse as JSON, or opening or reading it is an OS
 * error), or holding a map from game name to its list of entries.  Every
 * operation re-loads the file, exactly as the source does, and a missing or
 * unreadable file reads as the empty map.
 */
module Leaderboard {
  import opened Wrappers

  /** A value in an entry's free-form `extra` dictionary. */
  datatype Value = Int(i: int) | Text(s: string)

  datatype Entry = Entry(player: string, score: int, extra: map<string, Value>, time: string)

  type Data = map<string, seq<Entry>>

  datatype FileState = Missing | Unreadable | Stored(data: Data)

  /** Entries kept per game after each `add_score`. */
  const MaxEntries: nat := 20
  /** `get_leaderboard`'s default `limit`. */
  const DefaultLimit: nat := 10

  /** `_load_data`: a missing file, or one that fails to parse or to read, is the empty store. */
  function Load(f: FileState): Data
  {
    match f
    case Stored(d) => d
    case _ => map[]
  }

  /** Entries in descending score order (ties in any order). */
  ghost predicate SortedDesc(s: seq<Entry>)
  {
    forall i, j :: 0 <= i < j < |s| ==> s[i].score >= s[j].score
  }

  /** The entries of `s` whose score is `k`, in their order in `s`. */
  function WithScore(s: seq<Entry>, k: int): (r: seq<Entry>)
    ensures |r| <= |s|
  {
    if s == [] then []
    else WithScore(s[..|s| - 1], k) + (if s[|s| - 1].score == k then [s[|s| - 1]] else [])
  }

  /**
   * Places `x` after every leading entry whose score is at least `x`'s:
   * in a descending list, after all entries with a score >= x.score.
   */
  function Insert(x: Entry, s: seq<Entry>): seq<Entry>
  {
    if s == [] then [x]
    else if s[0].score >= x.score then [s[0]] + Insert(x, s[1..])
    else [x] + s
  }

  /**
   * Python's `list.sort(key=score, reverse=True)`: a stable sort by
   * descending score, here as an insertion sort that takes the entries in
   * list order, so an entry goes after the equal-score entries before it.
   */
  function SortDesc(s: seq<Entry>): seq<Entry>
  {
    if s == [] then [] else Insert(s[|s| - 1], SortDesc(s[..|s| - 1]))
  }

  /** The new entry `add_score` appends; a missing `extra` becomes `{}`. */
  function NewEntry(player: string, score: int, extra: Option<map<string, Value>>, now: string): (e: Entry)
    ensures e.player == player && e.score == score && e.time == now
    ensures extra.None? ==> e.extra == map[]
    ensures extra.Some? ==> e.extra == extra.value
  {
    Entry(player, score, if extra.Some? then extra.value else map[], now)
  }

  /** The list `game` holds in `d`; an unknown game starts from `[]`. */
  function ListOf(d: Data, game: string): seq<Entry>
  {
    if game in d then d[game] else []
  }

  /** The store after `add_score(game, ...)` appended entry `e`. */
  function Added(d: Data, game: string, e: Entry): Data
  {
    var sorted := SortDesc(ListOf(d, game) + [e]);
    d[game := sorted[..Min(|sorted|, MaxEntries)]]
  }

  // ---------------------------------------------------------------------
  // Properties of the sort

  lemma {:induction false} InsertMultiset(x: Entry, s: seq<Entry>)
    ensures multiset(Insert(x, s)) == multiset(s) + multiset{x}
  {
    if s != [] && s[0].score >= x.score {
      InsertMultiset(x, s[1..]);
      assert s == [s[0]] + s[1..];
    }
  }

  /** Inserting into a list whose scores are all at most `b` keeps them so, when `x`'s is too. */
  lemma {:induction false} InsertBounded(x: Entry, s: seq<Entry>, b: int)
    requires x.score <= b && forall i :: 0 <= i < |s| ==> s[i].score <= b
    ensures forall i :: 0 <= i < |Insert(x, s)| ==> Insert(x, s)[i].score <= b
  {
    if s != [] && s[0].score >= x.score {
      InsertBounded(x, s[1..], b);
      ConsBounded(s[0], Insert(x, s[1..]), b);
    } else {
      ConsBounded(x, s, b);
    }
  }

  lemma ConsBounded(y: Entry, t: seq<Entry>, b: int)
    requires y.score <= b && forall i :: 0 <= i < |t| ==> t[i].score <= b
    ensures forall i :: 0 <= i < |[y] + t| ==> ([y] + t)[i].score <= b
  {
    forall i | 0 <= i < |[y] + t| ensures ([y] + t)[i].score <= b {
      if i > 0 { assert ([y] + t)[i] == t[i - 1]; }
    }
  }

  /** A head at least as high as every entry of a sorted tail gives a sorted list. */
  lemma ConsSorted(y: Entry, t: seq<Entry>)
    requires SortedDesc(t) && forall i :: 0 <= i < |t| ==> t[i].score <= y.score
    ensures SortedDesc([y] + t)
  {
    forall i, j | 0 <= i < j < |[y] + t| ensures ([y] + t)[i].score >= ([y] + t)[j].score {
      assert ([y] + t)[j] == t[j - 1];
      if i > 0 { assert ([y] + t)[i] == t[i - 1]; }
    }
  }

  lemma {:induction false} InsertSorted(x: Entry, s: seq<Entry>)
    requires SortedDesc(s)
    ensures SortedDesc(Insert(x, s))
  {
    if s == [] {
    } else if s[0].score >= x.score {
      assert SortedDesc(s[1..]);
      InsertSorted(x, s[1..]);
      assert forall i :: 0 <= i < |s[1..]| ==> s[1..][i].score <= s[0].score;
      InsertBounded(x, s[1..], s[0].score);
      ConsSorted(s[0], Insert(x, s[1..]));
    } else {
      ConsSorted(x, s);
    }
  }

  lemma {:induction false} InsertStable(x: Entry, s: seq<Entry>, k: int)
    requires SortedDesc(s)
    ensures WithScore(Insert(x, s), k) == WithScore(s, k) + (if x.score == k then [x] else [])
  {
    if s == [] {
      assert Insert(x, s) == [x];
      WithScoreConsAppend(x, [], k);
    } else if s[0].score >= x.score {
      assert SortedDesc(s[1..]);
      InsertStable(x, s[1..], k);
      InsertBelow(x, s[0], s[1..], k);
      assert [s[0]] + s[1..] == s;
    } else {
      InsertAbove(x, s, k);
    }
  }

  /** Inserting below the head y: the head's contribution comes first on both sides. */
  lemma InsertBelow(x: Entry, y: Entry, rest: seq<Entry>, k: int)
    requires y.score >= x.score
    requires WithScore(Insert(x, rest), k) == WithScore(rest, k) + (if x.score == k then [x] else [])
    ensures WithScore(Insert(x, [y] + rest), k) == WithScore([y] + rest, k) + (if x.score == k then [x] else [])
  {
    var s := [y] + rest;
    assert s[0] == y && s[1..] == rest;
    var t := Insert(x, rest);
    assert Insert(x, s) == [y] + t;
    WithScoreConsAppend(y, t, k);
    WithScoreConsAppend(y, rest, k);
  }

  /** Inserting above the whole list: `x` goes first, and no entry shares its score. */
  lemma InsertAbove(x: Entry, s: seq<Entry>, k: int)
    requires SortedDesc(s) && s != [] && s[0].score < x.score
    ensures WithScore(Insert(x, s), k) == WithScore(s, k) + (if x.score == k then [x] else [])
  {
    assert Insert(x, s) == [x] + s;
    WithScoreConsAppend(x, s, k);
    if x.score == k {
      forall i | 0 <= i < |s| ensures s[i].score != k {
        if i > 0 { assert s[0].score >= s[i].score; }
      }
      WithScoreNone(s, k);
    }
  }

  lemma WithScoreAppend(s: seq<Entry>, x: Entry, k: int)
    ensures WithScore(s + [x], k) == WithScore(s, k) + (if x.score == k then [x] else [])
  {
    assert (s + [x])[..|s|] == s;
  }

  /** Filtering distributes over a leading element. */
  lemma {:induction false} WithScoreConsAppend(y: Entry, t: seq<Entry>, k: int)
    ensures WithScore([y] + t, k) == (if y.score == k then [y] else []) + WithScore(t, k)
    decreases |t|
  {
    if t == [] {
      assert [y] + t == [y];
      assert [y][..0] == [];
    } else {
      var u := [y] + t;
      assert u[..|u| - 1] == [y] + t[..|t| - 1];
      WithScoreConsAppend(y, t[..|t| - 1], k);
    }
  }

  /** A list with no entry scoring `k` filters to nothing. */
  lemma {:induction false} WithScoreNone(s: seq<Entry>, k: int)
    requires forall i :: 0 <= i < |s| ==> s[i].score != k
    ensures WithScore(s, k) == []
  {
    if s != [] { WithScoreNone(s[..|s| - 1], k); }
  }

  /** The sort yields a list in descending score order. */
  lemma {:induction false} SortDescSorted(s: seq<Entry>)
    ensures SortedDesc(SortDesc(s))
  {
    if s != [] {
      SortDescSorted(s[..|s| - 1]);
      InsertSorted(s[|s| - 1], SortDesc(s[..|s| - 1]));
    }
  }

  /** The sort yields a permutation of its input. */
  lemma {:induction false} SortDescPermutes(s: seq<Entry>)
    ensures multiset(SortDesc(s)) == multiset(s)
  {
    if s != [] {
      var p, x := s[..|s| - 1], s[|s| - 1];
      SortDescPermutes(p);
      InsertMultiset(x, SortDesc(p));
      assert s == p + [x];
    }
  }

  /** The sort keeps the relative order of equal-score entries (stability). */
  lemma {:induction false} SortDescStable(s: seq<Entry>, k: int)
    ensures WithScore(SortDesc(s), k) == WithScore(s, k)
  {
    if s != [] {
      var p, x := s[..|s| - 1], s[|s| - 1];
      SortDescStable(p, k);
      SortDescSorted(p);
      InsertStable(x, SortDesc(p), k);
      WithScoreAppend(p, x, k);
      assert s == p + [x];
    }
  }

  /** Filtering a prefix gives a prefix of the filtered list. */
  lemma {:induction false} WithScorePrefix(s: seq<Entry>, n: nat, k: int)
    requires n <= |s|
    ensures WithScore(s[..n], k) <= WithScore(s, k)
    decreases |s|
  {
    if n < |s| {
      assert s[..|s| - 1][..n] == s[..n];
      WithScorePrefix(s[..|s| - 1], n, k);
    } else {
      assert s[..n] == s;
    }
  }

  // ---------------------------------------------------------------------
  // Properties of add_score

  /** After `add_score`, the game's list is sorted by descending score. */
  lemma AddedSorted(d: Data, game: string, e: Entry)
    ensures game in Added(d, game, e)
    ensures SortedDesc(Added(d, game, e)[game])
  {
    var sorted := SortDesc(ListOf(d, game) + [e]);
    SortDescSorted(ListOf(d, game) + [e]);
    var r := sorted[..Min(|sorted|, MaxEntries)];
    forall i, j | 0 <= i < j < |r| ensures r[i].score >= r[j].score {
      assert r[i] == sorted[i] && r[j] == sorted[j];
    }
  }

  /** After `add_score`, the game's list has min(old length + 1, 20) entries. */
  lemma AddedLength(d: Data, game: string, e: Entry)
    ensures game in Added(d, game, e)
    ensures |Added(d, game, e)[game]| == Min(|ListOf(d, game)| + 1, MaxEntries)
  {
    SortDescPermutes(ListOf(d, game) + [e]);
    assert |multiset(SortDesc(ListOf(d, game) + [e]))| == |multiset(ListOf(d, game) + [e])|;
  }

  /**
   * Every kept entry is the new one or an old one, and the kept list holds
   * no entry more often than the old list plus the new entry did.
   */
  lemma AddedFromOld(d: Data, game: string, e: Entry)
    ensures game in Added(d, game, e)
    ensures multiset(Added(d, game, e)[game]) <= multiset(ListOf(d, game)) + multiset{e}
  {
    var s := ListOf(d, game) + [e];
    var sorted := SortDesc(s);
    SortDescPermutes(s);
    var n := Min(|sorted|, MaxEntries);
    assert sorted == sorted[..n] + sorted[n..];
    assert multiset(sorted) == multiset(sorted[..n]) + multiset(sorted[n..]);
  }

  /**
   * Stability: for every score, the kept entries with that score are a
   * prefix of the old entries with that score followed by the new entry if
   * it has that score.  So equal-score entries keep their relative order
   * and the new entry goes after them.
   */
  lemma AddedStable(d: Data, game: string, e: Entry, k: int)
    ensures game in Added(d, game, e)
    ensures WithScore(Added(d, game, e)[game], k)
            <= WithScore(ListOf(d, game), k) + (if e.score == k then [e] else [])
  {
    var s := ListOf(d, game) + [e];
    var sorted := SortDesc(s);
    var n := Min(|sorted|, MaxEntries);
    assert Added(d, game, e)[game] == sorted[..n];
    SortDescStable(s, k);
    WithScorePrefix(sorted, n, k);
    WithScoreAppend(ListOf(d, game), e, k);
  }

  /** Other games' lists are unchanged; the game names are the old ones plus `game`. */
  lemma AddedOthersUnchanged(d: Data, game: string, e: Entry)
    ensures Added(d, game, e).Keys == d.Keys + {game}
    ensures forall g :: g in d && g != game ==> Added(d, game, e)[g] == d[g]
  {
    var s := SortDesc(ListOf(d, game) + [e]);
    var kept := s[..Min(|s|, MaxEntries)];
    assert Added(d, game, e) == d[game := kept];
  }

  /** An unknown game gets a new list holding just the new entry. */
  lemma AddedUnknownGame(d: Data, game: string, e: Entry)
    requires game !in d
    ensures game in Added(d, game, e) && Added(d, game, e)[game] == [e]
  {
    assert ListOf(d, game) + [e] == [e];
    assert [e][..0] == [];
    assert SortDesc([e]) == Insert(e, SortDesc([])) == [e];
  }

  /** Inserting an entry no higher than the last of a sorted list puts it last. */
  lemma {:induction false} InsertLowest(x: Entry, s: seq<Entry>)
    requires SortedDesc(s)
    requires forall i :: 0 <= i < |s| ==> s[i].score >= x.score
    ensures Insert(x, s) == s + [x]
  {
    if s != [] {
      InsertLowest(x, s[1..]);
      assert s == [s[0]] + s[1..];
    }
  }

  /** Sorting an already descending list changes nothing. */
  lemma {:induction false} SortDescIdempotent(s: seq<Entry>)
    requires SortedDesc(s)
    ensures SortDesc(s) == s
  {
    if s != [] {
      var p := s[..|s| - 1];
      SortDescIdempotent(p);
      InsertLowest(s[|s| - 1], p);
      assert p + [s[|s| - 1]] == s;
    }
  }

  /**
   * With 20 sorted entries already present, a new score that does not beat
   * the 20th (equal scores included) is dropped and the list is unchanged.
   */
  lemma AddedDropsLowScore(d: Data, game: string, e: Entry)
    requires game in d && |d[game]| == MaxEntries && SortedDesc(d[game])
    requires e.score <= d[game][MaxEntries - 1].score
    ensures Added(d, game, e)[game] == d[game]
  {
    var s := d[game];
    assert forall i :: 0 <= i < |s| ==> s[i].score >= e.score by {
      forall i | 0 <= i < |s| ensures s[i].score >= e.score {
        assert i < MaxEntries - 1 ==> s[i].score >= s[MaxEntries - 1].score;
      }
    }
    var t := s + [e];
    assert SortedDesc(t) by {
      forall i, j | 0 <= i < j < |t| ensures t[i].score >= t[j].score {
        if j < |s| { assert t[i] == s[i] && t[j] == s[j]; }
      }
    }
    SortDescIdempotent(t);
    assert t[..MaxEntries] == s;
  }

  /** A missing file, or one that fails to parse or to read, is read as the empty store. */
  lemma LoadFailureIsEmpty(f: FileState)
    requires !f.Stored?
    ensures Load(f) == map[]
    ensures forall game, e :: Added(Load(f), game, e) == map[game := [e]]
  {
    forall game, e ensures Added(Load(f), game, e) == map[game := [e]] {
      AddedUnknownGame(Load(f), game, e);
    }
  }

  /** `get_leaderboard`'s answer: the first min(limit, n) entries, `[]` for an unknown game. */
  function Top(d: Data, game: string, limit: nat): (r: seq<Entry>)
    ensures |r| == Min(limit, |ListOf(d, game)|)
    ensures forall i :: 0 <= i < |r| ==> r[i] == d[game][i]
    ensures game !in d ==> r == []
  {
    var entries := ListOf(d, game);
    entries[..Min(limit, |entries|)]
  }

  /** The score file: the only state the source keeps, re-read by every call. */
  class ScoreFile {
    var file: FileState

    constructor (initial: FileState)
      ensures file == initial
    {
      file := initial;
    }

    /**
     * `add_score`: load (failure reads as empty), append the new entry, sort
     * by descending score, keep the first 20 and write the whole store back.
     */
    method AddScore(game: string, player: string, score: int, extra: Option<map<string, Value>>, now: string)
      modifies this
      ensures file == Stored(Added(Load(old(file)), game, NewEntry(player, score, extra, now)))
    {
      var data := Load(file);
      if game !in data {
        data := data[game := []];
      }
      var entry := Entry(player, score, if extra.Some? then extra.value else map[], now);
      var list := data[game] + [entry];
      list := SortDesc(list);
      data := data[game := list[..Min(|list|, MaxEntries)]];
      file := Stored(data);
    }

    /** `get_leaderboard`: the first `limit` entries of a game, `[]` if unknown. */
    method GetLeaderboard(game: string, limit: nat := DefaultLimit) returns (entries: seq<Entry>)
      ensures entries == Top(Load(file), game, limit)
      ensures SortedDesc(ListOf(Load(file), game)) ==> SortedDesc(entries)
    {
      var data := Load(file);
      var all := if game in data then data[game] else [];
      entries := all[..Min(limit, |all|)];
    }

    /** `get_all_games`: exactly the stored game names. */
    method GetAllGames() returns (names: set<string>)
      ensures forall g :: g in names <==> g in Load(file)
      ensures !file.Stored? ==> names == {}
    {
      var data := Load(file);
      names := data.Keys;
    }
  }
}
