/** When the stored field count of a hash is the number of its fields. */
module HashCounts {
  import opened Common
  import opened Dictionary

  /** HLEN's number is the number of fields, and no empty hash is kept. */
  predicate Exact(slot: Slot) {
    slot.Some? && slot.value.value.Hash? ==> slot.value.value.count == |slot.value.value.fields| > 0
  }

  /** No two arguments name the same field, among the fields inside or outside `fields`. */
  predicate Distinct(fields: set<bytes>, names: seq<bytes>, present: bool) {
    forall i, j :: 0 <= i < j < |names| && (names[i] in fields) == present ==> names[i] != names[j]
  }

  function Named(fields: set<bytes>, names: seq<bytes>, present: bool): set<bytes> {
    set n | n in names && (n in fields) == present
  }

  /** Counting mentions is counting fields exactly when no counted field is mentioned twice. */
  lemma {:induction false} MentionsIffDistinct(fields: set<bytes>, names: seq<bytes>, present: bool)
    ensures |Named(fields, names, present)| <= Mentions(fields, names, present)
    ensures |Named(fields, names, present)| == Mentions(fields, names, present) <==> Distinct(fields, names, present)
  {
    if names == [] {
      assert Named(fields, names, present) == {};
    } else {
      var init, last := names[..|names| - 1], names[|names| - 1];
      MentionsIffDistinct(fields, init, present);
      DistinctSnoc(fields, init, last, present);
      assert names == init + [last];
      if (last in fields) == present {
        assert Named(fields, names, present) == Named(fields, init, present) + {last};
      } else {
        assert Named(fields, names, present) == Named(fields, init, present);
      }
    }
  }

  lemma DistinctSnoc(fields: set<bytes>, init: seq<bytes>, last: bytes, present: bool)
    ensures Distinct(fields, init + [last], present) <==>
            Distinct(fields, init, present) && ((last in fields) == present ==> last !in init)
  {
    var names := init + [last];
    if Distinct(fields, names, present) {
      forall i, j | 0 <= i < j < |init| && (init[i] in fields) == present ensures init[i] != init[j] {
        assert names[i] == init[i] && names[j] == init[j];
      }
      forall i | 0 <= i < |init| && (last in fields) == present ensures init[i] != last {
        assert names[i] == init[i] && names[|init|] == last;
      }
    }
  }

  lemma {:induction false} AssignKeys(fields: map<bytes, bytes>, pairs: seq<(bytes, bytes)>)
    ensures Assign(fields, pairs).Keys == fields.Keys + Named(fields.Keys, Names(pairs), false)
  {
    if pairs == [] {
      assert Named(fields.Keys, Names(pairs), false) == {};
    } else {
      var init, last := pairs[..|pairs| - 1], pairs[|pairs| - 1];
      AssignKeys(fields, init);
      assert Names(pairs) == Names(init) + [last.0];
      assert Assign(fields, pairs).Keys == Assign(fields, init).Keys + {last.0};
    }
  }

  /**
   * HSET assigns the fields, and it keeps an exact count exact and reports how many fields it
   * created, if and only if it names no new field twice.
   */
  lemma HSetExactIff(slot: Slot, pairs: seq<(bytes, bytes)>)
    requires Exact(slot) && Fits(slot, |pairs|) && pairs != []
    requires slot.None? || slot.value.value.Hash?
    ensures var fields := slot.GetOr(Entry(Hash(map[], 0), 0)).value.fields;
            var (after, reply) := HSet(slot, pairs);
            && after.Some? && after.value.value.Hash? && after.value.value.fields == Assign(fields, pairs)
            && (Exact(after) <==> Distinct(fields.Keys, Names(pairs), false))
            && (reply == Ok(|Assign(fields, pairs)| - |fields|) <==> Distinct(fields.Keys, Names(pairs), false))
  {
    var fields := slot.GetOr(Entry(Hash(map[], 0), 0)).value.fields;
    var fresh_ := Named(fields.Keys, Names(pairs), false);
    AssignKeys(fields, pairs);
    MentionsIffDistinct(fields.Keys, Names(pairs), false);
    assert |fields.Keys + fresh_| == |fields.Keys| + |fresh_|;
    var after := Assign(fields, pairs);
    assert |after| == |after.Keys| && |fields| == |fields.Keys|;
    assert Names(pairs)[0] in fields.Keys + fresh_;
  }

  /**
   * HDEL removes the named fields, reports how many, and keeps the rest with an exact count, if and
   * only if it names no stored field twice; otherwise the report is wrong, and the count of what is
   * left as well unless the hash is gone.
   */
  lemma HDelExactIff(slot: Slot, names: seq<bytes>)
    requires Exact(slot) && slot.Some? && slot.value.value.Hash?
    ensures var fields := slot.value.value.fields;
            var rest := fields - ToSet(names);
            HDel(slot, names) == (if rest == map[] then None else Some(slot.value.(value := Hash(rest, |rest|))),
                                  Ok(|fields| - |rest|))
            <==> Distinct(fields.Keys, names, true)
    ensures var fields := slot.value.value.fields;
            && (HDel(slot, names).1 == Ok(|fields| - |fields - ToSet(names)|) <==> Distinct(fields.Keys, names, true))
            && (Exact(HDel(slot, names).0) <==>
                Distinct(fields.Keys, names, true) || |fields| <= Mentions(fields.Keys, names, true))
  {
    hide Distinct, Mentions, ToSet;
    DeletedExactIff(slot.value.value.fields, names);
  }

  /** The same of the fields: how many are mentioned, and how many go. */
  lemma DeletedExactIff(fields: map<bytes, bytes>, names: seq<bytes>)
    ensures var (rest, removed) := (fields - ToSet(names), Mentions(fields.Keys, names, true));
            && |rest| <= |fields| <= |rest| + removed
            && (removed == |fields| - |rest| <==> Distinct(fields.Keys, names, true))
            && (rest == map[] <==> |rest| == 0)
            && (removed == 0 ==> rest == fields)
  {
    hide Distinct, Mentions, ToSet, Named;
    MentionsIffDistinct(fields.Keys, names, true);
    DeletedSize(fields, names);
  }

  lemma DeletedSize(fields: map<bytes, bytes>, names: seq<bytes>)
    ensures var (rest, gone) := (fields - ToSet(names), Named(fields.Keys, names, true));
            |fields| == |rest| + |gone| && (gone == {} ==> rest == fields)
  {
    var rest, gone := fields - ToSet(names), Named(fields.Keys, names, true);
    assert rest.Keys == fields.Keys - gone;
    assert fields.Keys == rest.Keys + gone;
    assert |fields| == |fields.Keys| && |rest| == |rest.Keys|;
  }

  /** Naming a stored field twice can delete fields that were not named: HDEL h a a, with h = {a, b}. */
  lemma DuplicateHDelLosesTheHash()
    ensures var h := Entry(Hash(map[[97] := [1], [98] := [2]], 2), 0);
            Exact(Some(h)) && HDel(Some(h), [[97], [97]]) == (None, Ok(2))
  {
    var fields: map<bytes, bytes> := map[[97] := [1], [98] := [2]];
    var names: seq<bytes> := [[97], [97]];
    assert fields.Keys == {[97], [98]};
    assert |fields| == |fields.Keys|;
    assert names[..1] == [[97]];
    assert Mentions(fields.Keys, names[..1], true) == 1;
    assert Mentions(fields.Keys, names, true) == 2;
  }

  /** Naming a new field twice leaves a count one too high: HSET h a 1 a 2 on a missing key. */
  lemma DuplicateHSetOvercounts()
    ensures HSet(None, [([97], [1]), ([97], [2])]).0 == Some(Entry(Hash(map[[97] := [2]], 2), 0))
    ensures !Exact(HSet(None, [([97], [1]), ([97], [2])]).0)
  {
    var pairs: seq<(bytes, bytes)> := [([97], [1]), ([97], [2])];
    assert pairs[..1] == [([97], [1])];
    assert Assign(map[], pairs[..1]) == map[[97] := [1]];
    assert Assign(map[], pairs) == map[[97] := [2]];
    var names: seq<bytes> := Names(pairs);
    assert names == [[97], [97]];
    assert names[..1] == [[97]];
    assert Mentions({}, names[..1], false) == 1;
    assert Mentions({}, names, false) == 2;
    assert map[[97] := [2]].Keys == {[97]};
  }
}
