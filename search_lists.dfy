/**
 * Search history and favorites of the search dialog, as values: how each list changes
 * when a term is added, and how a list is stored in and restored from the preferences.
 */
module SearchLists {
  import opened Wrappers
  import opened JavaText

  /** MAX_HISTORY */
  const MaxHistory: nat := 20
  /** PREF_KEY_HISTORY and PREF_KEY_FAVORITES */
  const HistoryKey: string := "jadx_search_history"
  const FavoritesKey: string := "jadx_search_favorites"

  function Max(a: int, b: int): (r: int)
    ensures a <= r && b <= r && (r == a || r == b)
  {
    if a < b then b else a
  }

  function Min(a: int, b: int): (r: int)
    ensures r <= a && r <= b && (r == a || r == b)
  {
    if a < b then a else b
  }

  /** Index of the first entry equal to x. */
  function IndexOf(xs: seq<string>, x: string): (k: nat)
    requires x in xs
    ensures k < |xs| && xs[k] == x
    ensures forall j :: 0 <= j < k ==> xs[j] != x
  {
    if xs[0] == x then 0 else IndexOf(xs[1..], x) + 1
  }

  /** `List.remove(Object)`: finds the first equal entry and removes it, if there is one. */
  function RemoveFirst(xs: seq<string>, x: string): (r: seq<string>)
    ensures x in xs ==> |r| == |xs| - 1
    ensures x !in xs ==> r == xs
  {
    if x in xs then
      var k := IndexOf(xs, x);
      xs[..k] + xs[k + 1..]
    else xs
  }

  /** `List.remove(Object)` takes away exactly one copy of x and nothing else. */
  lemma RemoveFirstRemovesOne(xs: seq<string>, x: string)
    requires x in xs
    ensures multiset(RemoveFirst(xs, x)) == multiset(xs) - multiset{x}
  {
    var k := IndexOf(xs, x);
    var before, after := xs[..k], xs[k + 1..];
    assert xs == before + ([x] + after);
    assert multiset(xs) == multiset(before) + multiset{x} + multiset(after);
    assert RemoveFirst(xs, x) == before + after;
  }

  /**
   * History after `addToHistory(text)`: a null or blank text changes nothing; otherwise
   * the text, untrimmed, moves to the front and the last entry is dropped when the list
   * grows past MaxHistory.
   */
  function AddedToHistory(h: seq<string>, text: Option<string>): (r: seq<string>)
    ensures IsNullOrBlank(text) ==> r == h
    ensures !IsNullOrBlank(text) ==> r != [] && r[0] == text.value
    ensures |r| <= Max(|h|, MaxHistory)
  {
    if IsNullOrBlank(text) then h
    else
      var moved := [text.value] + RemoveFirst(h, text.value);
      if |moved| > MaxHistory then moved[..|moved| - 1] else moved
  }

  /** Favorites after "Add Current Search": appended only when present and not yet there. */
  function AddedToFavorites(f: seq<string>, current: Option<string>): (r: seq<string>)
    ensures current.Some? && current.value !in f ==> r == f + [current.value]
    ensures current.None? || current.value in f ==> r == f
  {
    if current.Some? && current.value !in f then f + [current.value] else f
  }

  /** `loadHistoryAndFavorites`: an empty stored string is an empty list, anything else is split. */
  function LoadList(stored: string): (r: seq<string>)
    ensures stored == "" ==> r == []
    ensures stored != "" && FindDelimiter(stored).None? ==> r == [stored]
  {
    if stored == "" then [] else Split(stored)
  }

  /** `prefs.get(key, "")` */
  function PrefGet(prefs: map<string, string>, key: string): (r: string)
    ensures key in prefs ==> r == prefs[key]
    ensures key !in prefs ==> r == ""
  {
    if key in prefs then prefs[key] else ""
  }

  // ---- history ----

  /**
   * `List.remove(Object)` removes the first equal entry and keeps the others in their
   * order: the entries before it stay where they are, the ones after it move up by one.
   */
  lemma RemoveFirstKeepsOrder(xs: seq<string>, x: string)
    requires x in xs
    ensures var r := RemoveFirst(xs, x);
            |r| == |xs| - 1 &&
            forall i :: 0 <= i < |r| ==> r[i] == xs[if i < IndexOf(xs, x) then i else i + 1]
  {
  }

  /** Removing the first occurrence from a duplicate-free list removes every occurrence. */
  lemma RemoveFirstOfDuplicateFree(xs: seq<string>, x: string)
    requires NoDuplicates(xs)
    ensures NoDuplicates(RemoveFirst(xs, x)) && x !in RemoveFirst(xs, x)
  {
    if x in xs {
      var k := IndexOf(xs, x);
      var r := xs[..k] + xs[k + 1..];
      forall i | 0 <= i < |r| ensures r[i] == xs[if i < k then i else i + 1] {
      }
      forall i, j | 0 <= i < j < |r| ensures r[i] != r[j] {
        assert r[i] == xs[if i < k then i else i + 1];
        assert r[j] == xs[if j < k then j else j + 1];
      }
      forall i | 0 <= i < |r| ensures r[i] != x {
        assert r[i] == xs[if i < k then i else i + 1];
      }
    }
  }

  /**
   * After adding a non-blank text, the text heads the list and the entries after it are
   * the old entries, in their old order, without the text's previous occurrence (and
   * possibly without the last one, see HistoryAddCutsAtCap).
   */
  lemma HistoryAddKeepsOrder(h: seq<string>, t: string)
    requires !IsBlank(t)
    ensures AddedToHistory(h, Some(t))[0] == t
    ensures var r := AddedToHistory(h, Some(t));
            t in h ==> forall i :: 1 <= i < |r| ==> r[i] == h[if i - 1 < IndexOf(h, t) then i - 1 else i]
    ensures t !in h ==> AddedToHistory(h, Some(t))[1..] <= h
  {
    var rest := RemoveFirst(h, t);
    var r := AddedToHistory(h, Some(t));
    assert r[1..] <= rest by {
      CapKeepsPrefix([t] + rest);
    }
    if t in h {
      RemoveFirstKeepsOrder(h, t);
      forall i | 1 <= i < |r| ensures r[i] == h[if i - 1 < IndexOf(h, t) then i - 1 else i] {
        assert r[i] == r[1..][i - 1] == rest[i - 1];
      }
    }
  }

  /** The cut at the cap keeps a prefix of the moved list, and its head. */
  lemma CapKeepsPrefix(moved: seq<string>)
    requires moved != []
    ensures var r := if |moved| > MaxHistory then moved[..|moved| - 1] else moved;
            r != [] && r[0] == moved[0] && r[1..] <= moved[1..]
  {
  }

  /** Below the cap nothing is cut; at or above it exactly the last entry is. */
  lemma HistoryAddCutsAtCap(h: seq<string>, t: string)
    requires !IsBlank(t)
    ensures |RemoveFirst(h, t)| < MaxHistory ==> |AddedToHistory(h, Some(t))| == |RemoveFirst(h, t)| + 1
    ensures |RemoveFirst(h, t)| >= MaxHistory ==> |AddedToHistory(h, Some(t))| == |RemoveFirst(h, t)|
  {
  }

  /** A duplicate-free history stays duplicate-free, and the added text occurs exactly once, at the front. */
  lemma {:induction false} HistoryAddNoDuplicates(h: seq<string>, t: string)
    requires NoDuplicates(h) && !IsBlank(t)
    ensures var r := AddedToHistory(h, Some(t));
            NoDuplicates(r) && r[0] == t && forall i :: 0 < i < |r| ==> r[i] != t
  {
    RemoveFirstOfDuplicateFree(h, t);
    var moved := [t] + RemoveFirst(h, t);
    assert NoDuplicates(moved);
    var r := AddedToHistory(h, Some(t));
    assert r <= moved;
  }

  /**
   * The cap is hit by a new text on a full list (or on a longer one, as loading can
   * leave it): exactly the last (oldest) entry goes.
   */
  lemma HistoryAddEvictsOldest(h: seq<string>, t: string)
    requires !IsBlank(t) && t !in h && |h| >= MaxHistory
    ensures AddedToHistory(h, Some(t)) == [t] + h[..|h| - 1]
  {
    assert ([t] + h)[..|h|] == [t] + h[..|h| - 1];
  }

  /** Re-adding a text already in a list within the cap loses nothing: the entries are permuted. */
  lemma HistoryAddExistingIsPermutation(h: seq<string>, t: string)
    requires !IsBlank(t) && t in h && |h| <= MaxHistory
    ensures |AddedToHistory(h, Some(t))| == |h|
    ensures multiset(AddedToHistory(h, Some(t))) == multiset(h)
  {
    var k := IndexOf(h, t);
    assert h == h[..k] + [t] + h[k + 1..];
    assert multiset(h) == multiset(h[..k]) + multiset{t} + multiset(h[k + 1..]);
  }

  /** The history after adding the texts of ts in order. */
  function AddedAllToHistory(h: seq<string>, ts: seq<string>): (r: seq<string>)
    ensures |h| <= MaxHistory ==> |r| <= MaxHistory
  {
    if ts == [] then h else AddedToHistory(AddedAllToHistory(h, ts[..|ts| - 1]), Some(ts[|ts| - 1]))
  }

  /** No text of ts is blank. */
  predicate NoneBlank(ts: seq<string>) {
    ts == [] || (NoneBlank(ts[..|ts| - 1]) && !IsBlank(ts[|ts| - 1]))
  }

  /** Adding a text not yet in a list within the cap prepends it and keeps at most MaxHistory entries. */
  lemma AddFreshToHistory(prev: seq<string>, t: string)
    requires !IsBlank(t) && t !in prev && |prev| <= MaxHistory
    ensures AddedToHistory(prev, Some(t)) == ([t] + prev)[..Min(|prev| + 1, MaxHistory)]
  {
  }

  /**
   * Adding distinct non-blank texts to an empty history leaves the MaxHistory most
   * recent of them, most recent first: the oldest are dropped first.
   */
  lemma {:induction false} DistinctAddsKeepMostRecent(ts: seq<string>)
    requires NoDuplicates(ts) && NoneBlank(ts)
    ensures |AddedAllToHistory([], ts)| == Min(|ts|, MaxHistory)
    ensures forall i :: 0 <= i < |AddedAllToHistory([], ts)| ==> AddedAllToHistory([], ts)[i] == ts[|ts| - 1 - i]
  {
    if ts != [] {
      var init := ts[..|ts| - 1];
      LastIsNew(ts);
      DistinctAddsKeepMostRecent(init);
      DistinctAddStep(ts, AddedAllToHistory([], init));
    }
  }

  /** The inductive step: one more distinct non-blank text on the newest-first window of the older ones. */
  lemma DistinctAddStep(ts: seq<string>, prev: seq<string>)
    requires ts != [] && !IsBlank(ts[|ts| - 1]) && ts[|ts| - 1] !in ts[..|ts| - 1]
    requires prev == AddedAllToHistory([], ts[..|ts| - 1])
    requires |prev| == Min(|ts| - 1, MaxHistory)
    requires forall i :: 0 <= i < |prev| ==> prev[i] == ts[|ts| - 2 - i]
    ensures |AddedAllToHistory([], ts)| == Min(|ts|, MaxHistory)
    ensures forall i :: 0 <= i < |AddedAllToHistory([], ts)| ==> AddedAllToHistory([], ts)[i] == ts[|ts| - 1 - i]
  {
    var t := ts[|ts| - 1];
    WindowOmits(ts[..|ts| - 1], prev, t);
    AddFreshToHistory(prev, t);
    NewestFirstWindow(ts, prev);
  }

  /** The older texts of a duplicate-free sequence are duplicate-free and miss the newest one. */
  lemma LastIsNew(ts: seq<string>)
    requires ts != [] && NoDuplicates(ts)
    ensures NoDuplicates(ts[..|ts| - 1]) && ts[|ts| - 1] !in ts[..|ts| - 1]
  {
    var init := ts[..|ts| - 1];
    forall i, j | 0 <= i < j < |init| ensures init[i] != init[j] {
      assert init[i] == ts[i] && init[j] == ts[j];
    }
    forall i | 0 <= i < |init| ensures init[i] != ts[|ts| - 1] {
      assert init[i] == ts[i];
    }
  }

  /** A newest-first window of init does not hold a text missing from init. */
  lemma WindowOmits(init: seq<string>, prev: seq<string>, t: string)
    requires t !in init && |prev| <= |init|
    requires forall i :: 0 <= i < |prev| ==> prev[i] == init[|init| - 1 - i]
    ensures t !in prev
  {
    forall i | 0 <= i < |prev| ensures prev[i] != t {
      assert prev[i] == init[|init| - 1 - i];
    }
  }

  /** Prepending the newest text to the newest-first window of the older texts, cut at the cap. */
  lemma NewestFirstWindow(ts: seq<string>, prev: seq<string>)
    requires ts != [] && |prev| == Min(|ts| - 1, MaxHistory)
    requires forall i :: 0 <= i < |prev| ==> prev[i] == ts[|ts| - 2 - i]
    ensures var r := ([ts[|ts| - 1]] + prev)[..Min(|prev| + 1, MaxHistory)];
            |r| == Min(|ts|, MaxHistory) && forall i :: 0 <= i < |r| ==> r[i] == ts[|ts| - 1 - i]
  {
    var r := ([ts[|ts| - 1]] + prev)[..Min(|prev| + 1, MaxHistory)];
    forall i | 0 <= i < |r| ensures r[i] == ts[|ts| - 1 - i] {
      if i > 0 {
        assert r[i] == prev[i - 1];
      }
    }
  }

  /** Adding one more text to the sequence of adds is one more AddedToHistory step. */
  lemma AddedAllSnoc(h: seq<string>, ts: seq<string>, t: string)
    ensures AddedAllToHistory(h, ts + [t]) == AddedToHistory(AddedAllToHistory(h, ts), Some(t))
  {
    assert (ts + [t])[..|ts|] == ts;
  }

  /**
   * a, then b, then a again leaves [a, b]: a repeated search moves to the front and is
   * not duplicated.
   */
  lemma MoveToFrontScenario(a: string, b: string)
    requires !IsBlank(a) && !IsBlank(b) && a != b
    ensures AddedAllToHistory([], [a, b, a]) == [a, b]
  {
    assert AddedAllToHistory([], [a, b]) == [b, a] by {
      TwoFreshAdds(a, b);
    }
    AddedAllSnoc([], [a, b], a);
    assert [a, b] + [a] == [a, b, a];
    assert AddedToHistory([b, a], Some(a)) == [a, b] by {
      assert IndexOf([b, a], a) == 1;
      assert RemoveFirst([b, a], a) == [b];
    }
  }

  /** Two different non-blank texts on an empty history: the newer one first. */
  lemma TwoFreshAdds(a: string, b: string)
    requires !IsBlank(a) && !IsBlank(b) && a != b
    ensures AddedAllToHistory([], [a, b]) == [b, a]
  {
    AddedAllSnoc([], [], a);
    assert [] + [a] == [a];
    AddFreshToHistory([], a);
    AddedAllSnoc([], [a], b);
    assert [a] + [b] == [a, b];
    AddFreshToHistory([a], b);
  }

  // ---- favorites ----

  /** Adding the same search twice is the same as adding it once. */
  lemma FavoritesAddIdempotent(f: seq<string>, c: Option<string>)
    ensures AddedToFavorites(AddedToFavorites(f, c), c) == AddedToFavorites(f, c)
  {
    if c.Some? && c.value !in f {
      assert (f + [c.value])[|f|] == c.value;
    }
  }

  /** Favorites keep insertion order (the old list is a prefix) and stay duplicate-free. */
  lemma FavoritesAddNoDuplicates(f: seq<string>, c: Option<string>)
    requires NoDuplicates(f)
    ensures f <= AddedToFavorites(f, c)
    ensures NoDuplicates(AddedToFavorites(f, c))
  {
  }

  // ---- persistence ----

  /**
   * Saving a list of '|'-free entries and loading it back gives the list without its
   * trailing empty entries: split drops them, and nothing else.
   */
  lemma LoadAfterSaveDropsTrailingEmpty(prefs: map<string, string>, key: string, xs: seq<string>)
    requires NoBar(xs)
    ensures LoadList(PrefGet(prefs[key := Join(xs)], key)) == DropTrailingEmpty(xs)
  {
    if xs != [] {
      FragmentsOfJoin(xs);
      if |xs| >= 2 {
        assert DelimiterAt(Join(xs), |xs[0]|);
      } else {
        assert '|' !in xs[0];
        assert forall j :: 0 <= j < |xs[0]| ==> xs[0][j] != '|';
      }
    }
  }

  /**
   * What saveHistory/saveFavorites store, loadHistoryAndFavorites gives back, for every
   * list whose entries have no '|' and whose last entry is not empty (the empty list
   * included: it is stored as "" and loads as []).
   */
  lemma LoadAfterSave(prefs: map<string, string>, key: string, xs: seq<string>)
    requires NoBar(xs) && (xs == [] || xs[|xs| - 1] != "")
    ensures LoadList(PrefGet(prefs[key := Join(xs)], key)) == xs
  {
    LoadAfterSaveDropsTrailingEmpty(prefs, key, xs);
  }

  /** The round trip for lists of non-empty, '|'-free entries, such as typed search terms. */
  lemma LoadAfterSaveNonEmptyEntries(prefs: map<string, string>, key: string, xs: seq<string>)
    requires NoBar(xs) && forall i :: 0 <= i < |xs| ==> xs[i] != ""
    ensures LoadList(PrefGet(prefs[key := Join(xs)], key)) == xs
  {
    LoadAfterSave(prefs, key, xs);
  }

  /**
   * The delimiter is not escaped: an entry ending in '|' that another entry follows does
   * not survive a save and load; the bar moves to the start of the next entry.
   */
  lemma BarInEntryIsNotRestored(a: string, b: string)
    requires '|' !in a && '|' !in b
    ensures LoadList(Join([a + "|", b])) == [a, "|" + b]
  {
    var s := Join([a + "|", b]);
    assert s == a + Delimiter + ("|" + b) by {
      assert [a + "|", b][1..] == [b];
    }
    FindDelimiterAfterBarFree(a, "|" + b);
    assert s[..|a|] == a;
    assert s[|a| + 2..] == "|" + b;
    assert FindDelimiter("|" + b) == None by {
      forall j | 0 <= j < |"|" + b| ensures !DelimiterAt("|" + b, j) {
        if j + 1 < |"|" + b| {
          assert ("|" + b)[j + 1] == b[j];
        }
      }
    }
    assert Fragments(s) == [a, "|" + b];
  }

  /** A trailing empty entry is dropped by the split. */
  lemma TrailingEmptyEntryIsLost()
    ensures LoadList(Join(["a", ""])) == ["a"]
  {
    var s := Join(["a", ""]);
    assert s == "a||";
    assert FindDelimiter(s) == Some(1);
    assert s[..1] == "a" && s[3..] == "";
    assert Fragments(s) == ["a", ""];
  }
}
