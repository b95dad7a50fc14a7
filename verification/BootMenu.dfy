/** Reordering the boot options: moving an entry with the arrow keys, saving or cancelling. */
module BootMenu {
  import opened Words
  import opened BootLists
  import opened BootStore
  import LoadOption

  /** How a move ends when the new order is written or not: a failed write is a cancel. */
  function EndingOf(ending: Ending, written: bool): Ending {
    if ending == Save && !written then Cancel else ending
  }

  /** Writes the indices of the list over a copy of BootOrder, entry by entry. */
  method OrderOfList(order: seq<u16>, list: seq<Entry>) returns (s: seq<u16>)
    requires |order| == |list|
    ensures s == Indices(list)
  {
    var bootOrder := new u16[|order|](k requires 0 <= k < |order| => order[k]);
    for i := 0 to |order|
      invariant forall k :: 0 <= k < i ==> bootOrder[k] == Indices(list)[k]
    {
      bootOrder[i] := list[i].LoadOptionIndex;
    }
    s := bootOrder[..];
  }

  /** Moves the entry at `pos` past its neighbour. */
  method Exchange(store: Store, pos: nat, next: nat, ghost list: seq<Entry>, ghost selected: nat)
    requires selected < |list| && pos < |list| && next < |list| && (next == pos + 1 || next + 1 == pos)
    requires store.List == Moved(list, selected, pos)
    modifies store`List
    ensures store.List == Moved(list, selected, next)
  {
    MovedFurther(list, selected, pos, next);
    store.List := SwapListEntries(store.List, pos, next);
  }

  /** Following the keys from the i-th on is following the i-th and then the rest. */
  lemma WalkOn(n: nat, pos: nat, keys: seq<Key>, i: nat)
    requires pos < n && i < |keys|
    ensures Walk(n, pos, keys[i..])
            == match keys[i]
               case Enter => (pos, Save)
               case Escape => (pos, Cancel)
               case Up => Walk(n, if pos > 0 then pos - 1 else pos, keys[i + 1..])
               case Down => Walk(n, if pos + 1 < n then pos + 1 else pos, keys[i + 1..])
               case Other => Walk(n, pos, keys[i + 1..])
  {
    assert keys[i..][1..] == keys[i + 1..];
  }

  lemma {:induction false} WalkUp(n: nat, pos: nat, keys: seq<Key>, ups: nat)
    requires pos < n && ups <= |keys| && forall i :: 0 <= i < ups ==> keys[i] == Up
    ensures Walk(n, pos, keys) == Walk(n, if ups <= pos then pos - ups else 0, keys[ups..])
    decreases ups
  {
    if ups > 0 {
      assert keys[1..][ups - 1..] == keys[ups..];
      WalkUp(n, if pos > 0 then pos - 1 else pos, keys[1..], ups - 1);
    } else {
      assert keys[0..] == keys;
    }
  }

  lemma {:induction false} WalkDown(n: nat, pos: nat, keys: seq<Key>, downs: nat)
    requires pos < n && downs <= |keys| && forall i :: 0 <= i < downs ==> keys[i] == Down
    ensures Walk(n, pos, keys) == Walk(n, if pos + downs < n then pos + downs else n - 1, keys[downs..])
    decreases downs
  {
    if downs > 0 {
      assert keys[1..][downs - 1..] == keys[downs..];
      WalkDown(n, if pos + 1 < n then pos + 1 else pos, keys[1..], downs - 1);
    } else {
      assert keys[0..] == keys;
    }
  }

  /** Where the entry stands after so many keys up and then so many down, kept inside the list. */
  function Travelled(n: nat, pos: nat, ups: nat, downs: nat): int {
    var top := if ups <= pos then pos - ups else 0;
    if top + downs < n then top + downs else n - 1
  }

  /** Keys up and then keys down carry the entry by as many places, as far as the list goes. The key
      behind them saves the new place, cancels the move, or does nothing; when there is none, the move
      is interrupted. */
  lemma KeysInNumbers(n: nat, pos: nat, keys: seq<Key>, ups: nat, downs: nat, to: int)
    requires pos < n && ups + downs <= |keys| && to == Travelled(n, pos, ups, downs)
    requires forall i :: 0 <= i < ups ==> keys[i] == Up
    requires forall i :: ups <= i < ups + downs ==> keys[i] == Down
    ensures 0 <= to < n
    ensures |keys| == ups + downs ==> Walk(n, pos, keys) == (to, Interrupted)
    ensures |keys| > ups + downs ==>
              && (keys[ups + downs] == Enter ==> Walk(n, pos, keys) == (to, Save))
              && (keys[ups + downs] == Escape ==> Walk(n, pos, keys) == (to, Cancel))
              && (keys[ups + downs] == Other ==> Walk(n, pos, keys) == Walk(n, to, keys[ups + downs + 1..]))
  {
    var rest := keys[ups..];
    WalkUp(n, pos, keys, ups);
    WalkDown(n, if ups <= pos then pos - ups else 0, rest, downs);
    assert rest[downs..] == keys[ups + downs..];
    assert |keys| > ups + downs ==> keys[ups + downs..][1..] == keys[ups + downs + 1..];
  }

  /** The inner loop of BootMenuReorderBootOptions: the keys move the selected entry until the move is
      saved, cancelled or interrupted. Without the selected entry the list never changes. */
  method FollowKeys(store: Store, selected: nat, keys: seq<Key>) returns (pos: nat, ending: Ending)
    requires selected < |store.List|
    modifies store`List
    ensures (pos, ending) == Walk(|old(store.List)|, selected, keys)
    ensures store.List == Moved(old(store.List), selected, pos)
  {
    ghost var list := store.List;
    pos, ending := selected, Interrupted;
    WithWithout(list, selected);
    assert keys[0..] == keys;
    var i, waiting := 0, true;
    while i < |keys| && waiting
      invariant i <= |keys| && pos < |list| && store.List == Moved(list, selected, pos)
      invariant if waiting then ending == Interrupted && Walk(|list|, selected, keys) == Walk(|list|, pos, keys[i..])
                else Walk(|list|, selected, keys) == (pos, ending)
      decreases |keys| - i, waiting
    {
      WalkOn(|list|, pos, keys, i);
      match keys[i] {
        case Up =>
          if pos > 0 {
            Exchange(store, pos, pos - 1, list, selected);
            pos := pos - 1;
          }
        case Down =>
          if pos + 1 < |store.List| {
            Exchange(store, pos, pos + 1, list, selected);
            pos := pos + 1;
          }
        case Enter =>
          ending, waiting := Save, false;
        case Escape =>
          ending, waiting := Cancel, false;
        case Other =>
      }
      i := i + 1;
    }
  }

  /** One move of BootMenuReorderBootOptions. Saving writes a permutation of the order; cancelling, or
      a failed write, restores the list exactly; an error while waiting for a key leaves the entry
      where it is, so the store stays coherent only when it stands where it started. */
  method Reorder(store: Store, selected: nat, keys: seq<Key>, written: bool) returns (ending: Ending)
    requires store.Coherent() && selected < |store.List|
    modifies store`List, store`BootOrder
    ensures var w := Walk(|old(store.List)|, selected, keys);
            && ending == EndingOf(w.1, written)
            && (ending == Save ==>
                  && store.Coherent() && store.List == Moved(old(store.List), selected, w.0)
                  && multiset(store.Order()) == multiset(old(store.Order())))
            && (ending == Cancel ==>
                  && store.Coherent() && store.List == old(store.List) && store.BootOrder == old(store.BootOrder))
            && (ending == Interrupted ==>
                  && store.List == Moved(old(store.List), selected, w.0) && store.BootOrder == old(store.BootOrder)
                  && (store.Coherent() <==> w.0 == selected))
  {
    ghost var list, order := store.List, store.Order();
    var previous := if selected == 0 then None else Some(store.List[selected - 1].LoadOptionIndex);
    var entry := store.List[selected];
    var pos;
    pos, ending := FollowKeys(store, selected, keys);
    MovedIndices(list, selected, pos);
    MovedPermutes(order, selected, pos);
    if ending == Save {
      if written {
        var s := OrderOfList(store.Order(), store.List);
        store.SetBootOrder(s);
        SavedIsCoherent(order, list, store.Variables, selected, pos);
      } else {
        ending := Cancel;
      }
    }
    if ending == Cancel {
      PutBack(list, selected, pos);
      store.List := InsertAfter(Without(store.List, pos), previous, entry);
    } else if ending == Interrupted {
      InterruptedAgrees(order, list, store.Variables, selected, pos);
    }
  }

  lemma SavedIsCoherent(order: seq<u16>, list: seq<Entry>, vars: map<u16, seq<u8>>, from: nat, to: nat)
    requires NoDuplicates(order) && Indices(list) == order && Agrees(list, vars) && from < |list| && to < |list|
    requires forall i: u16 :: i in order <==> i in vars
    ensures NoDuplicates(Moved(order, from, to)) && Indices(Moved(list, from, to)) == Moved(order, from, to)
    ensures Agrees(Moved(list, from, to), vars)
    ensures forall i: u16 :: i in Moved(order, from, to) <==> i in vars
  {
    MovedIndices(list, from, to);
    MovedKeepsApart(order, from, to);
    MovedAgrees(list, vars, from, to);
  }

  lemma MovedAgrees(list: seq<Entry>, vars: map<u16, seq<u8>>, from: nat, to: nat)
    requires Agrees(list, vars) && from < |list| && to < |list|
    ensures Agrees(Moved(list, from, to), vars)
  {
    var m := Moved(list, from, to);
    forall k | 0 <= k < |m|
      ensures m[k].LoadOptionIndex in vars && vars[m[k].LoadOptionIndex] == m[k].LoadOption
    {
      var j := MovedFrom(list, from, to, k);
      assert m[k] == list[j];
    }
  }

  lemma InterruptedAgrees(order: seq<u16>, list: seq<Entry>, vars: map<u16, seq<u8>>, from: nat, to: nat)
    requires NoDuplicates(order) && Indices(list) == order && Agrees(list, vars) && from < |list| && to < |list|
    requires forall i: u16 :: i in order <==> i in vars
    ensures Indices(Moved(list, from, to)) == order <==> from == to
    ensures from == to ==> Moved(list, from, to) == list
  {
    MovedIndices(list, from, to);
    MovedDiffers(order, from, to);
    WithWithout(list, from);
  }

  /** The variable exists and the parser takes it. */
  predicate Readable(vars: map<u16, seq<u8>>, index: u16) {
    index in vars && LoadOption.Parse(vars[index]) != LoadOption.BadBufferSize
  }

  /** The entries of an order whose variables are readable, in that order. */
  function Listed(order: seq<u16>, vars: map<u16, seq<u8>>): (list: seq<Entry>)
    ensures |list| <= |order| && Agrees(list, vars)
  {
    if order == [] then []
    else
      var index, before := order[|order| - 1], Listed(order[..|order| - 1], vars);
      if Readable(vars, index) then before + [Entry(index, vars[index])] else before
  }

  predicate AllReadable(order: seq<u16>, vars: map<u16, seq<u8>>) {
    order == [] || (Readable(vars, order[|order| - 1]) && AllReadable(order[..|order| - 1], vars))
  }

  /** The list has all the indices of the order exactly when every variable is readable. */
  lemma {:induction false} ListedAllIff(order: seq<u16>, vars: map<u16, seq<u8>>)
    ensures |Listed(order, vars)| == |order| <==> AllReadable(order, vars)
    ensures AllReadable(order, vars) ==> Indices(Listed(order, vars)) == order
  {
    if order != [] {
      var index, front := order[|order| - 1], order[..|order| - 1];
      ListedAllIff(front, vars);
      if AllReadable(order, vars) {
        assert Indices(Listed(order, vars)) == front + [index] == order;
      }
    }
  }

  lemma {:induction false} AllReadableIff(order: seq<u16>, vars: map<u16, seq<u8>>)
    requires forall i: u16 :: i in order ==> i in vars
    ensures AllReadable(order, vars) <==> forall i: u16 :: i in order ==> |vars[i]| >= 12
  {
    if order != [] {
      var index, front := order[|order| - 1], order[..|order| - 1];
      AllReadableIff(front, vars);
      assert forall i: u16 :: i in order <==> i in front || i == index;
    }
  }

  /** BootOptionList, whatever the variables hold. From sound variables the list is coherent if and
      only if every listed variable has the twelve bytes the parser asks for: the others are left out. */
  method LoadList(store: Store)
    modifies store`List
    ensures store.List == Listed(store.Order(), store.Variables)
    ensures store.Sound() ==>
              (store.Coherent() <==> forall i: u16 :: i in store.Variables ==> |store.Variables[i]| >= 12)
  {
    store.List := [];
    if store.BootOrder.Some? {
      var order := store.BootOrder.value;
      for i := 0 to |order|
        invariant store.List == Listed(order[..i], store.Variables)
      {
        assert order[..i + 1][..i] == order[..i];
        if order[i] in store.Variables {
          var option := LoadOption.Parse(store.Variables[order[i]]);
          if option != LoadOption.BadBufferSize {
            store.List := store.List + [Entry(order[i], store.Variables[order[i]])];
          }
        }
      }
      assert order[..|order|] == order;
    }
    ListedAllIff(store.Order(), store.Variables);
    if store.Sound() {
      AllReadableIff(store.Order(), store.Variables);
    }
  }

  /** The actions of the boot menu on the entries it lists. */
  datatype Action =
    | Add(loadOption: seq<u8>)
    | Change(k: nat, loadOption: seq<u8>)
    | Remove(k: nat)
    | Move(selected: nat, keys: seq<Key>, written: bool)

  /** Load options are never empty. */
  predicate Proper(a: Action) {
    match a
    case Add(option) => option != []
    case Change(_, option) => option != []
    case Remove(_) => true
    case Move(_, _, _) => true
  }

  /** The actions on a coherent store of n options after which it is not coherent: an addition when no
      index is free, and a move that an error interrupts away from where it started. */
  predicate Breaks(n: nat, a: Action) {
    match a
    case Add(_) => n >= 0x1_0000
    case Change(_, _) => false
    case Remove(_) => false
    case Move(selected, keys, _) =>
      selected < n && Walk(n, selected, keys).1 == Interrupted && Walk(n, selected, keys).0 != selected
  }

  /** How many options there are after an action. */
  function Count(n: nat, a: Action): nat {
    match a
    case Add(_) => n + 1
    case Change(_, _) => n
    case Remove(k) => if k < n then n - 1 else n
    case Move(_, _, _) => n
  }

  predicate Broken(n: nat, actions: seq<Action>)
    decreases |actions|
  {
    actions != [] && (Breaks(n, actions[0]) || Broken(Count(n, actions[0]), actions[1..]))
  }

  /** Until the first action that breaks it, BootOrder has no duplicates, its members are exactly the
      existing Boot#### variables, and the list carries the same indices in the same order. */
  method Run(store: Store, actions: seq<Action>)
    requires store.Coherent()
    requires forall i :: 0 <= i < |actions| ==> Proper(actions[i])
    modifies store
    ensures store.Coherent() <==> !Broken(old(|store.List|), actions)
  {
    ghost var n := |store.List|;
    var i, coherent := 0, true;
    while i < |actions| && coherent
      invariant i <= |actions| && (store.Coherent() <==> coherent)
      invariant Broken(n, actions) <==> !coherent || Broken(|store.List|, actions[i..])
      decreases |actions| - i, coherent
    {
      assert actions[i..][0] == actions[i] && actions[i..][1..] == actions[i + 1..];
      coherent := Act(store, actions[i]);
      i := i + 1;
    }
  }

  /** One action. */
  method Act(store: Store, a: Action) returns (coherent: bool)
    requires store.Coherent() && Proper(a)
    modifies store
    ensures coherent <==> store.Coherent()
    ensures coherent <==> !Breaks(old(|store.List|), a)
    ensures |store.List| == Count(old(|store.List|), a)
  {
    coherent := true;
    assert |Indices(store.List)| == |store.List|;
    match a {
      case Add(option) =>
        coherent := |store.List| < 0x1_0000;
        store.Create(option);
      case Change(k, option) =>
        if k < |store.List| {
          store.Update(k, option);
        }
      case Remove(k) =>
        if k < |store.List| {
          store.Delete(k);
        }
      case Move(selected, keys, written) =>
        if selected < |store.List| {
          coherent := !Breaks(|store.List|, a);
          var _ := Reorder(store, selected, keys, written);
        }
    }
  }

  lemma {:induction false} EndsProperly(n: nat, pos: nat, keys: seq<Key>)
    requires pos < n && (Enter in keys || Escape in keys)
    ensures Walk(n, pos, keys).1 != Interrupted
    decreases |keys|
  {
    if keys[0] != Enter && keys[0] != Escape {
      var next := if keys[0] == Up && pos > 0 then pos - 1 else if keys[0] == Down && pos + 1 < n then pos + 1 else pos;
      assert forall k :: k in keys && k != keys[0] ==> k in keys[1..];
      EndsProperly(n, next, keys[1..]);
    }
  }

  /** A move that the user ends by a save or a cancel. */
  predicate Ended(a: Action) { a.Move? ==> Enter in a.keys || Escape in a.keys }

  /** While indices last, only an interrupted move can break the store. */
  lemma {:induction false} EndedRunsKeep(n: nat, actions: seq<Action>)
    requires n + |actions| <= 0x1_0000 && forall i :: 0 <= i < |actions| ==> Ended(actions[i])
    ensures !Broken(n, actions)
    decreases |actions|
  {
    if actions != [] {
      var a := actions[0];
      if a.Move? && a.selected < n {
        EndsProperly(n, a.selected, a.keys);
      }
      EndedRunsKeep(Count(n, a), actions[1..]);
    }
  }
}
