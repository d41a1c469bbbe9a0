/** The reaction algorithm of the `react_to_message` handler, applied to the
    tally of the message it found. */
module Reactions {
  import opened ChatTypes

  /** `list.filter(user => user !== name)`. */
  function Without(list: seq<string>, name: string): (r: seq<string>)
    ensures forall x :: x in r <==> x in list && x != name
    ensures name !in list ==> r == list
  {
    if list == [] then []
    else (if list[0] == name then [] else [list[0]]) + Without(list[1..], name)
  }

  /** A one-name list is kept whole or dropped. */
  lemma WithoutSingleton(x: string, name: string)
    ensures Without([x], name) == if x == name then [] else [x]
  {
    assert [x][1..] == [];
  }

  /** `filter` works element by element: it keeps the order and the number
      of copies of every other name. */
  lemma {:induction false} WithoutConcat(a: seq<string>, b: seq<string>, name: string)
    ensures Without(a + b, name) == Without(a, name) + Without(b, name)
  {
    if a == [] {
      assert a + b == b;
    } else {
      var head := if a[0] == name then [] else [a[0]];
      assert (a + b)[0] == a[0] && (a + b)[1..] == a[1..] + b;
      WithoutConcat(a[1..], b, name);
      calc {
        Without(a + b, name);
        head + Without(a[1..] + b, name);
        head + (Without(a[1..], name) + Without(b, name));
        (head + Without(a[1..], name)) + Without(b, name);
        Without(a, name) + Without(b, name);
      }
    }
  }

  /** Each username is under at most one reaction symbol. */
  ghost predicate OneSymbolPerUser(t: Tally)
  {
    forall k1, k2, x :: k1 in t && k2 in t && x in t[k1] && x in t[k2] ==> k1 == k2
  }

  /** No symbol is kept with an empty list of reactors. */
  ghost predicate NoEmptyLists(t: Tally)
  {
    forall k :: k in t ==> t[k] != []
  }

  /** The tallies a message can carry: none yet, or a well-formed one. */
  ghost predicate TallyValid(o: Option<Tally>)
  {
    o.Some? ==> OneSymbolPerUser(o.value) && NoEmptyLists(o.value)
  }

  /** The tally after the removal loop: `name` is filtered out of every list
      and every list that becomes empty is deleted. */
  function Stripped(t: Tally, name: string): (r: Tally)
  {
    map k | k in t && Without(t[k], name) != [] :: Without(t[k], name)
  }

  /** After the removal `name` is under no symbol, no list is empty, and every
      other username is under exactly the symbols it was under. */
  lemma StrippedFacts(t: Tally, name: string)
    ensures var r := Stripped(t, name);
      && r.Keys <= t.Keys
      && NoEmptyLists(r)
      && (forall k :: k in r ==> name !in r[k])
      && (forall k, x :: x != name ==> (k in r && x in r[k] <==> k in t && x in t[k]))
  {
  }

  /** The loop over `Object.keys(message.reactions)`: each list is filtered
      and deleted once empty. The keys are visited in no particular order;
      the result does not depend on it. */
  method StripReactor(t: Tally, name: string) returns (r: Tally)
    ensures r == Stripped(t, name)
  {
    r := t;
    var pending := t.Keys;
    while pending != {}
      invariant pending <= t.Keys
      invariant r.Keys <= t.Keys
      invariant forall k :: k in pending ==> k in r && r[k] == t[k]
      invariant forall k :: k in t && k !in pending ==>
                  (k in r <==> Without(t[k], name) != []) &&
                  (k in r ==> r[k] == Without(t[k], name))
      decreases pending
    {
      var k :| k in pending;
      r := r[k := Without(r[k], name)];
      if |r[k]| == 0 {
        r := r - {k};
      }
      pending := pending - {k};
    }
  }

  /** What the handler leaves on a found message. */
  datatype Outcome =
    | Reacted(tally: Tally)      // the push succeeded and the tally is broadcast
    | PushFailed(tally: Tally)   // the push dereferenced a deleted key; the removal stays

  /** The tally of a message, with a missing one read as `{}`. */
  function TallyOf(o: Option<Tally>): (t: Tally)
  {
    if o.Some? then o.value else map[]
  }

  /** The handler's steps on a found message: default the tally to `{}`,
      create `[]` under the chosen symbol when it has no list, remove `name`
      from every list (deleting the emptied ones), then push `name` onto the
      chosen symbol's list. */
  function React(o: Option<Tally>, symbol: string, name: string): (out: Outcome)
  {
    var t := TallyOf(o);
    var t' := if symbol in t then t else t[symbol := []];
    var s := Stripped(t', name);
    if symbol in s then Reacted(s[symbol := s[symbol] + [name]])
    else PushFailed(s)
  }

  /** The empty list the handler creates never survives the removal. */
  lemma StrippedIgnoresNewEmptyList(t: Tally, symbol: string, name: string)
    requires symbol !in t
    ensures Stripped(t[symbol := []], name) == Stripped(t, name)
  {
    assert Without([], name) == [];
  }

  /** The push succeeds exactly when somebody other than the caller already
      holds the chosen symbol. */
  lemma ReactSucceedsIff(o: Option<Tally>, symbol: string, name: string)
    ensures React(o, symbol, name).Reacted? <==>
            symbol in TallyOf(o) && exists x :: x in TallyOf(o)[symbol] && x != name
  {
    var t := TallyOf(o);
    if symbol !in t {
      StrippedIgnoresNewEmptyList(t, symbol, name);
    } else {
      var w := Without(t[symbol], name);
      assert symbol in Stripped(t, name) <==> w != [];
      if w != [] {
        assert w[0] in w;
      }
    }
  }

  /** On failure the caller has been removed from every list, emptied lists
      are gone, and everybody else's reactions are as before. */
  lemma ReactFailureRemovesCaller(o: Option<Tally>, symbol: string, name: string)
    requires React(o, symbol, name).PushFailed?
    ensures React(o, symbol, name).tally == Stripped(TallyOf(o), name)
    ensures symbol !in React(o, symbol, name).tally
  {
    var t := TallyOf(o);
    if symbol !in t {
      StrippedIgnoresNewEmptyList(t, symbol, name);
    }
  }

  /** On success the caller is under the chosen symbol exactly once, as its
      last reactor, and under no other symbol; no list is empty; every other
      username keeps exactly the symbols it had. */
  lemma ReactSuccess(o: Option<Tally>, symbol: string, name: string)
    requires React(o, symbol, name).Reacted?
    ensures var r := React(o, symbol, name).tally;
      && symbol in r
      && multiset(r[symbol])[name] == 1
      && r[symbol][|r[symbol]| - 1] == name
      && (forall k :: k in r && k != symbol ==> name !in r[k])
      && NoEmptyLists(r)
      && (forall k, x :: x != name ==> (k in r && x in r[k] <==> k in TallyOf(o) && x in TallyOf(o)[k]))
  {
    var t := TallyOf(o);
    var t' := if symbol in t then t else t[symbol := []];
    var s := Stripped(t', name);
    var r := React(o, symbol, name).tally;
    assert r == s[symbol := s[symbol] + [name]];
    assert s == Stripped(t, name) by {
      if symbol !in t { StrippedIgnoresNewEmptyList(t, symbol, name); }
    }
    assert name !in s[symbol];
    assert multiset(s[symbol])[name] == 0;
    assert multiset(r[symbol]) == multiset(s[symbol]) + multiset{name};
    forall k, x | x != name
      ensures k in r && x in r[k] <==> k in t && x in t[k]
    {
      if k == symbol {
        assert x in r[k] <==> x in s[symbol];
      }
    }
  }

  /** The reaction step keeps the tally well formed. */
  lemma ReactKeepsTallyValid(o: Option<Tally>, symbol: string, name: string)
    requires TallyValid(o)
    ensures TallyValid(Some(React(o, symbol, name).tally))
  {
    var t := TallyOf(o);
    var r := React(o, symbol, name).tally;
    assert OneSymbolPerUser(t);
    if React(o, symbol, name).Reacted? {
      ReactSuccess(o, symbol, name);
      forall k1, k2, x | k1 in r && k2 in r && x in r[k1] && x in r[k2] ensures k1 == k2 {
        if x != name {
          assert k1 in t && x in t[k1] && k2 in t && x in t[k2];
        }
      }
    } else {
      ReactFailureRemovesCaller(o, symbol, name);
      forall k1, k2, x | k1 in r && k2 in r && x in r[k1] && x in r[k2] ensures k1 == k2 {
        assert k1 in t && x in t[k1] && k2 in t && x in t[k2];
      }
    }
  }

  /** Reacting again with the same symbol right after a successful reaction
      leaves the tally as it was. */
  lemma ReactIdempotent(o: Option<Tally>, symbol: string, name: string)
    requires React(o, symbol, name).Reacted?
    ensures React(Some(React(o, symbol, name).tally), symbol, name)
            == React(o, symbol, name)
  {
    var r := React(o, symbol, name).tally;
    ReactSuccess(o, symbol, name);
    var rest := r[symbol][..|r[symbol]| - 1];
    assert r[symbol] == rest + [name];
    assert multiset(r[symbol]) == multiset(rest) + multiset{name};
    assert rest != [] by {
      var t := TallyOf(o);
      ReactSucceedsIff(o, symbol, name);
      var x :| x in t[symbol] && x != name;
      assert x in r[symbol];
    }
    StrippedAfterPush(r, symbol, name, rest);
    PushRestores(r, symbol, name, rest);
  }

  /** Pushing the removed last reactor back restores the tally. */
  lemma PushRestores(r: Tally, symbol: string, name: string, rest: seq<string>)
    requires symbol in r && r[symbol] == rest + [name] && rest != []
    requires Stripped(r, name) == r[symbol := rest]
    ensures React(Some(r), symbol, name) == Reacted(r)
  {
    assert r[symbol := rest][symbol := rest + [name]] == r;
  }

  /** Removing a name that is only the last reactor of `symbol`. */
  lemma StrippedAfterPush(r: Tally, symbol: string, name: string, rest: seq<string>)
    requires symbol in r && r[symbol] == rest + [name]
    requires multiset(r[symbol])[name] == 1
    requires forall k :: k in r && k != symbol ==> name !in r[k]
    requires NoEmptyLists(r)
    ensures Stripped(r, name) == if rest == [] then r - {symbol} else r[symbol := rest]
  {
    assert name !in rest by {
      assert multiset(r[symbol]) == multiset(rest) + multiset{name};
    }
    WithoutAppended(rest, name);
    WithoutUntouched(r, symbol, name);
    if rest == [] {
      StrippedDropsSymbol(r, symbol, name);
    } else {
      StrippedKeepsSymbol(r, symbol, name, rest);
    }
  }

  lemma WithoutUntouched(r: Tally, symbol: string, name: string)
    requires forall k :: k in r && k != symbol ==> name !in r[k]
    ensures forall k :: k in r && k != symbol ==> Without(r[k], name) == r[k]
  {
  }

  lemma StrippedKeepsSymbol(r: Tally, symbol: string, name: string, rest: seq<string>)
    requires symbol in r && Without(r[symbol], name) == rest && rest != []
    requires forall k :: k in r && k != symbol ==> Without(r[k], name) == r[k]
    requires NoEmptyLists(r)
    ensures Stripped(r, name) == r[symbol := rest]
  {
    StrippedKeepsKeys(r, symbol, name, rest);
    var s := Stripped(r, name);
    forall k | k in s ensures s[k] == r[symbol := rest][k] {
      assert s[k] == Without(r[k], name);
    }
  }

  lemma StrippedKeepsKeys(r: Tally, symbol: string, name: string, rest: seq<string>)
    requires symbol in r && Without(r[symbol], name) == rest && rest != []
    requires forall k :: k in r && k != symbol ==> Without(r[k], name) == r[k]
    requires NoEmptyLists(r)
    ensures Stripped(r, name).Keys == r.Keys
  {
  }

  lemma StrippedDropsSymbol(r: Tally, symbol: string, name: string)
    requires symbol in r && Without(r[symbol], name) == []
    requires forall k :: k in r && k != symbol ==> Without(r[k], name) == r[k]
    requires NoEmptyLists(r)
    ensures Stripped(r, name) == r - {symbol}
  {
    assert Stripped(r, name).Keys == r.Keys - {symbol};
  }

  /** Filtering a list whose only occurrence of `name` is a final one. */
  lemma {:induction false} WithoutAppended(rest: seq<string>, name: string)
    requires name !in rest
    ensures Without(rest + [name], name) == rest
  {
    if rest != [] {
      assert (rest + [name])[1..] == rest[1..] + [name];
      WithoutAppended(rest[1..], name);
    }
  }

  /** What the loop plus push evidently mean to do: move the caller's
      reaction to `symbol`, creating its list when needed. */
  function IntendedReact(t: Tally, symbol: string, name: string): (r: Tally)
    ensures symbol in r && |r[symbol]| > 0 && r[symbol][|r[symbol]| - 1] == name
    ensures multiset(r[symbol])[name] == 1
    ensures forall k :: k in r && k != symbol ==> name !in r[k]
    ensures NoEmptyLists(r)
    ensures forall k, x :: x != name ==> (k in r && x in r[k] <==> k in t && x in t[k])
  {
    var s := Stripped(t, name);
    StrippedFacts(t, name);
    var kept := if symbol in s then s[symbol] else [];
    assert name !in kept;
    assert multiset(kept)[name] == 0;
    assert multiset(kept + [name]) == multiset(kept) + multiset{name};
    s[symbol := kept + [name]]
  }

  /** Whenever the handler as written succeeds, it computes the intended tally. */
  lemma ReactAgreesWithIntended(t: Tally, symbol: string, name: string)
    requires React(Some(t), symbol, name).Reacted?
    ensures React(Some(t), symbol, name).tally == IntendedReact(t, symbol, name)
  {
    if symbol !in t {
      StrippedIgnoresNewEmptyList(t, symbol, name);
    }
  }

  /** A first reaction on a message fails: the list created for the symbol is
      deleted again before the push. */
  lemma FirstReactionFails(symbol: string, name: string)
    ensures React(None, symbol, name) == PushFailed(map[])
    ensures React(Some(map[]), symbol, name) == PushFailed(map[])
  {
    assert Without([], name) == [];
    assert Stripped(map[symbol := []], name) == map[];
  }

  /** Reacting with the caller's current symbol again also fails when the
      caller is its only reactor: the caller's reaction is dropped. */
  lemma SoleReactorLosesReaction(symbol: string, name: string)
    ensures React(Some(map[symbol := [name]]), symbol, name) == PushFailed(map[])
  {
    assert Without([name], name) == [];
    assert Stripped(map[symbol := [name]], name) == map[];
  }

  /** The intended step moves a reaction from one symbol to another: the
      caller ends under the second symbol only, and the first symbol's list
      survives exactly when somebody else holds it. */
  lemma IntendedSwitchesSymbol(t: Tally, first: string, second: string, name: string)
    requires first != second
    ensures var r := IntendedReact(IntendedReact(t, first, name), second, name);
      && second in r && r[second][|r[second]| - 1] == name
      && (forall k :: k in r && k != second ==> name !in r[k])
      && (first in r <==> first in t && exists x :: x in t[first] && x != name)
  {
    var r1 := IntendedReact(t, first, name);
    var r2 := IntendedReact(r1, second, name);
    if first in r2 {
      var x := r2[first][0];
      assert x in r2[first] && x != name;
      assert x in r1[first];
    }
    if first in t && exists x :: x in t[first] && x != name {
      var x :| x in t[first] && x != name;
      assert x in r1[first];
      assert x in r2[first];
    }
  }

  /** The intended step is idempotent: reacting twice with one symbol leaves
      the caller under it once. */
  lemma IntendedIdempotent(t: Tally, symbol: string, name: string)
    ensures IntendedReact(IntendedReact(t, symbol, name), symbol, name) == IntendedReact(t, symbol, name)
  {
    var r := IntendedReact(t, symbol, name);
    var rest := r[symbol][..|r[symbol]| - 1];
    assert r[symbol] == rest + [name];
    StrippedAfterPush(r, symbol, name, rest);
    IntendedRestores(r, symbol, name, rest);
  }

  /** Moving the caller back onto the symbol whose last reactor it was
      restores the tally. */
  lemma IntendedRestores(r: Tally, symbol: string, name: string, rest: seq<string>)
    requires symbol in r && r[symbol] == rest + [name]
    requires Stripped(r, name) == if rest == [] then r - {symbol} else r[symbol := rest]
    ensures IntendedReact(r, symbol, name) == r
  {
    if rest == [] {
      assert (r - {symbol})[symbol := [] + [name]] == r;
    } else {
      assert r[symbol := rest][symbol := rest + [name]] == r;
    }
  }
}
