/** The table's row selection: a JavaScript array of record ids used as a
    set. Rows toggle one id, the header checkbox adds or removes the whole
    page, and the header shows checked when the whole page is selected. */
module Selection {
  import opened Sequences

  /** No id appears twice. Every update below keeps this, starting from the
      empty selection. */
  predicate NoDuplicates<T(==,!new)>(s: seq<T>)
  {
    forall i, j :: 0 <= i < j < |s| ==> s[i] != s[j]
  }

  /** `s.filter((x) => !ids.includes(x))`: `s` without the ids in `ids`, the
      rest in their order. */
  function Without<T(==,!new)>(s: seq<T>, ids: seq<T>): (r: seq<T>)
    ensures forall x :: x in r <==> x in s && x !in ids
    ensures NoDuplicates(s) ==> NoDuplicates(r)
    ensures |r| <= |s|
  {
    if |s| == 0 then []
    else
      var rest := Without(s[1..], ids);
      assert forall x :: x in rest ==> x in s[1..];
      if s[0] in ids then rest else [s[0]] + rest
  }

  /** Removing ids works element by element, so the order of what stays is
      the order it had. */
  lemma {:induction false} WithoutAppend<T(!new)>(a: seq<T>, b: seq<T>, ids: seq<T>)
    ensures Without(a + b, ids) == Without(a, ids) + Without(b, ids)
    decreases |a|
  {
    if |a| > 0 {
      DropFirstConcat(a, b);
      WithoutAppend(a[1..], b, ids);
      ConcatAssoc([a[0]], Without(a[1..], ids), Without(b, ids));
    } else {
      assert a + b == b;
    }
  }

  /** Removing ids none of which is present changes nothing. */
  lemma {:induction false} WithoutAbsent<T(!new)>(s: seq<T>, ids: seq<T>)
    requires forall x :: x in ids ==> x !in s
    ensures Without(s, ids) == s
    decreases |s|
  {
    if |s| > 0 {
      WithoutAbsent(s[1..], ids);
      assert [s[0]] + s[1..] == s;
    }
  }

  /** `[...new Set(s)]`: the first occurrence of each id, in order. */
  function Dedup<T(==,!new)>(s: seq<T>): (r: seq<T>)
    ensures NoDuplicates(r)
    ensures forall x :: x in r <==> x in s
    ensures NoDuplicates(s) ==> r == s
    decreases |s|
  {
    if |s| == 0 then []
    else
      var init := s[..|s| - 1];
      var d := Dedup(init);
      var x := s[|s| - 1];
      assert s == init + [x];
      if x in d then d else d + [x]
  }

  /** Deduplicating a concatenation keeps the deduplicated first part and
      then what the second part adds, in the second part's order. */
  lemma {:induction false} DedupAppend<T(!new)>(a: seq<T>, b: seq<T>)
    ensures Dedup(a + b) == Dedup(a) + Without(Dedup(b), a)
    decreases |b|
  {
    if |b| == 0 {
      assert a + b == a;
    } else {
      var init := b[..|b| - 1];
      var y := b[|b| - 1];
      SplitLast(b);
      ConcatAssoc(a, init, [y]);
      DedupAppend(a, init);
      DedupSnoc(a + init, y);
      DedupSnoc(init, y);
      var da := Dedup(a);
      var d := Dedup(init);
      var front := Dedup(a + init);
      assert front == da + Without(d, a);
      WithoutSnoc(d, y, a);
      if y in d {
        assert y in front;
      } else if y in a {
        assert y in front;
      } else {
        assert y !in front;
        ConcatAssoc(da, Without(d, a), [y]);
      }
    }
  }

  /** Deduplicating `s + [y]` keeps the deduplicated `s` and adds `y`
      unless it is already there. */
  lemma DedupSnoc<T(!new)>(s: seq<T>, y: T)
    ensures Dedup(s + [y]) == if y in Dedup(s) then Dedup(s) else Dedup(s) + [y]
  {
    SnocParts(s, y);
  }

  /** Removing ids from `s + [y]` removes them from `s` and drops `y` when
      it is one of them. */
  lemma WithoutSnoc<T(!new)>(s: seq<T>, y: T, ids: seq<T>)
    ensures Without(s + [y], ids) == if y in ids then Without(s, ids) else Without(s, ids) + [y]
  {
    WithoutAppend(s, [y], ids);
    assert [y][1..] == [];
    assert Without(s, ids) + [] == Without(s, ids);
  }

  /** The row checkbox: remove `id` when it is selected, else append it.
      It flips `id`'s membership and no other id's. */
  function Toggle<T(==,!new)>(sel: seq<T>, id: T): (r: seq<T>)
    ensures id in r <==> id !in sel
    ensures forall x :: x != id ==> (x in r <==> x in sel)
    ensures NoDuplicates(sel) ==> NoDuplicates(r)
  {
    if id in sel then Without(sel, [id]) else sel + [id]
  }

  /** Toggling a row twice gives back the same selected ids, and exactly the
      same array when the row was not selected. */
  lemma ToggleTwice<T(!new)>(sel: seq<T>, id: T)
    ensures forall x :: x in Toggle(Toggle(sel, id), id) <==> x in sel
    ensures id !in sel ==> Toggle(Toggle(sel, id), id) == sel
  {
    if id !in sel {
      WithoutAppend(sel, [id], [id]);
      WithoutAbsent(sel, [id]);
    }
  }

  /** The header checkbox when checked: `[...new Set([...sel, ...ids])]`.
      For a duplicate-free selection this is the selection unchanged,
      followed by the page's ids not yet selected, once each, in page order. */
  function SelectPage<T(==,!new)>(sel: seq<T>, ids: seq<T>): (r: seq<T>)
    ensures NoDuplicates(r)
    ensures forall x :: x in r <==> x in sel || x in ids
    ensures NoDuplicates(sel) ==> r == sel + Without(Dedup(ids), sel)
  {
    DedupAppend(sel, ids);
    Dedup(sel + ids)
  }

  /** The header checkbox when cleared: the selection without the page's
      ids, the rest in order. */
  function DeselectPage<T(==,!new)>(sel: seq<T>, ids: seq<T>): (r: seq<T>)
    ensures forall x :: x in r <==> x in sel && x !in ids
    ensures NoDuplicates(sel) ==> NoDuplicates(r)
  {
    Without(sel, ids)
  }

  /** Checking and then clearing the header over the same page leaves the
      prior selection minus that page, in its order. */
  lemma SelectThenDeselect<T(!new)>(sel: seq<T>, ids: seq<T>)
    requires NoDuplicates(sel)
    ensures DeselectPage(SelectPage(sel, ids), ids) == DeselectPage(sel, ids)
  {
    var added := Without(Dedup(ids), sel);
    WithoutAppend(sel, added, ids);
    NoneLeft(added, ids);
  }

  /** Removing ids from a sequence of nothing but those ids leaves nothing. */
  lemma {:induction false} NoneLeft<T(!new)>(s: seq<T>, ids: seq<T>)
    requires forall x :: x in s ==> x in ids
    ensures Without(s, ids) == []
    decreases |s|
  {
    if |s| > 0 {
      NoneLeft(s[1..], ids);
    }
  }

  /** `ids.every((id) => sel.includes(id))`. */
  function Every<T(==,!new)>(ids: seq<T>, sel: seq<T>): bool
  {
    |ids| == 0 || (ids[0] in sel && Every(ids[1..], sel))
  }

  /** The header checkbox's `checked`: the page is non-empty and each of its
      ids is selected. */
  function AllSelected<T(==,!new)>(ids: seq<T>, sel: seq<T>): (checked: bool)
    ensures checked <==> |ids| > 0 && forall i :: 0 <= i < |ids| ==> ids[i] in sel
  {
    EveryMeansAll(ids, sel);
    |ids| > 0 && Every(ids, sel)
  }

  lemma {:induction false} EveryMeansAll<T(!new)>(ids: seq<T>, sel: seq<T>)
    ensures Every(ids, sel) <==> forall i :: 0 <= i < |ids| ==> ids[i] in sel
    decreases |ids|
  {
    if |ids| > 0 {
      EveryMeansAll(ids[1..], sel);
      assert forall i :: 1 <= i < |ids| ==> ids[i] == ids[1..][i - 1];
    }
  }
}
