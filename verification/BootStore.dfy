/** The boot option store: Boot#### variables, the BootOrder variable and the list in memory, which
    creating, updating, deleting and reordering change together. */
module BootStore {
  import opened Words
  import opened BootLists

  /** Place of the first occurrence, or the length. */
  function Find(s: seq<u16>, x: u16): (i: nat)
    ensures i <= |s| && (i < |s| <==> x in s)
    ensures i < |s| ==> s[i] == x
    ensures forall k :: 0 <= k < i ==> s[k] != x
  {
    if s == [] then 0 else if s[0] == x then 0 else 1 + Find(s[1..], x)
  }

  /** The order that deleting an index writes back: one entry shorter, whether the index was there or not.
      Its first occurrence is taken out, or the last entry when it has none. */
  function Shortened(order: seq<u16>, x: u16): (s: seq<u16>)
    requires order != []
    ensures |s| == |order| - 1
    ensures x !in order ==> s == order[..|order| - 1]
    ensures forall i :: 0 <= i < |order| && order[i] == x && x !in order[..i] ==> s == order[..i] + order[i + 1..]
  {
    if x in order then Without(order, Find(order, x)) else order[..|order| - 1]
  }

  /** What the user does while an entry is being moved. */
  datatype Key = Up | Down | Enter | Escape | Other

  /** How moving an entry ends; Interrupted is an error while waiting for a key. */
  datatype Ending = Save | Cancel | Interrupted

  /** Where the entry at `pos` of a list of n entries stands when the keys end its move, and how. */
  function Walk(n: nat, pos: nat, keys: seq<Key>): (w: (nat, Ending))
    requires pos < n
    ensures w.0 < n
    decreases |keys|
  {
    if keys == [] then (pos, Interrupted)
    else match keys[0]
      case Enter => (pos, Save)
      case Escape => (pos, Cancel)
      case Up => Walk(n, if pos > 0 then pos - 1 else pos, keys[1..])
      case Down => Walk(n, if pos + 1 < n then pos + 1 else pos, keys[1..])
      case Other => Walk(n, pos, keys[1..])
  }

  class Store {
    var Variables: map<u16, seq<u8>>
    var BootOrder: Option<seq<u16>>
    var List: seq<Entry>

    function Order(): seq<u16>
      reads this
    {
      if BootOrder.Some? then BootOrder.value else []
    }

    /** The variables alone: BootOrder has no duplicates and lists exactly the Boot#### variables. */
    ghost predicate Sound()
      reads this
    {
      && BootOrder != Some([])
      && NoDuplicates(Order())
      && forall i: u16 :: i in Order() <==> i in Variables
    }

    /** The variables and the list: the same indices in the same order, with the same contents. */
    ghost predicate Coherent()
      reads this
    {
      && Sound()
      && Indices(List) == Order()
      && Agrees(List, Variables)
    }

    /** SetVariable on BootOrder: an empty value deletes the variable. */
    method SetBootOrder(order: seq<u16>)
      modifies this`BootOrder
      ensures BootOrder == if order == [] then None else Some(order)
    {
      BootOrder := if order == [] then None else Some(order);
    }

    /** BootOptionAllocateBootIndex: the first index that BootOrder does not list; 0 when there is none. */
    method AllocateBootIndex() returns (index: u16)
      ensures index in Order() ==> index == 0 && forall i: u16 :: i in Order()
      ensures forall i: u16 :: i < index ==> i in Order()
    {
      index := 0;
      if BootOrder.Some? {
        var order := BootOrder.value;
        var bootIndex := 0;
        var found := true;
        while bootIndex <= 0xFFFF && found
          invariant 0 <= bootIndex <= 0x1_0000
          invariant found ==> forall i: u16 :: i < bootIndex ==> i in order
          invariant !found ==> bootIndex <= 0xFFFF && bootIndex !in order && forall i: u16 :: i < bootIndex ==> i in order
          decreases 0x1_0000 - bootIndex, found
        {
          found := Search(order, bootIndex);
          if found {
            bootIndex := bootIndex + 1;
          }
        }
        if !found {
          index := bootIndex;
        }
      }
    }

    /** BootOptionCreate with the list update of BootMenuAddBootOption. The store stays coherent if and
        only if an index was free: with all 65536 taken the new option overwrites option 0 and
        BootOrder lists 0 twice. */
    method Create(loadOption: seq<u8>)
      requires Coherent() && loadOption != []
      modifies this
      ensures Coherent() <==> old(|Order()|) < 0x1_0000
      ensures |List| == old(|List|) + 1 && List[..|List| - 1] == old(List) && List[|List| - 1].LoadOption == loadOption
      ensures var i := List[|List| - 1].LoadOptionIndex;
              && (if old(|Order()|) < 0x1_0000 then i !in old(Variables) else i == 0)
              && BootOrder == Some(old(Order()) + [i]) && Variables == old(Variables)[i := loadOption]
    {
      ghost var order := Order();
      FullIffAllPresent(order);
      var index := AllocateBootIndex();
      Variables := Variables[index := loadOption];
      if BootOrder.Some? {
        SetBootOrder(BootOrder.value + [index]);
      } else {
        assert order + [index] == [index];
        SetBootOrder([index]);
      }
      List := List + [Entry(index, loadOption)];
      assert BootOrder == Some(order + [index]);
      Appended(order, index);
    }

    /** BootOptionUpdate: the option keeps its index. */
    method Update(k: nat, loadOption: seq<u8>)
      requires Coherent() && k < |List| && loadOption != []
      modifies this`Variables, this`List
      ensures Coherent()
      ensures var i := old(List)[k].LoadOptionIndex;
              List == old(List)[k := Entry(i, loadOption)] && Variables == old(Variables)[i := loadOption]
    {
      var i := List[k].LoadOptionIndex;
      assert i == Order()[k];
      ghost var list := List;
      Variables := Variables[i := loadOption];
      List := List[k := Entry(i, loadOption)];
      assert Indices(List) == Indices(list);
      forall j | 0 <= j < |List|
        ensures List[j].LoadOptionIndex in Variables && Variables[List[j].LoadOptionIndex] == List[j].LoadOption
      {
        if j != k {
          assert Indices(list)[j] != Indices(list)[k];
        }
      }
    }

    /** BootOptionDelete, whatever the state of the store: the index leaves BootOrder, shifting the
        later ones down; when it is not there the last one is dropped instead. */
    method DeleteOption(index: u16)
      requires BootOrder != Some([])
      modifies this`Variables, this`BootOrder
      ensures Variables == old(Variables) - {index}
      ensures old(BootOrder).None? ==> BootOrder.None?
      ensures old(BootOrder).Some? ==> Order() == Shortened(old(Order()), index)
      ensures BootOrder != Some([])
    {
      if BootOrder.Some? {
        var order := Shift(BootOrder.value, index);
        SetBootOrder(order);
      }
      Variables := Variables - {index};
    }

    /** BootMenuRemoveBootOption. */
    method Delete(k: nat)
      requires Coherent() && k < |List|
      modifies this
      ensures Coherent()
      ensures List == Without(old(List), k) && Order() == Without(old(Order()), k)
      ensures Variables == old(Variables) - {old(List)[k].LoadOptionIndex}
    {
      var index := List[k].LoadOptionIndex;
      ghost var order, list, vars := Order(), List, Variables;
      assert order[k] == index;
      FindIs(order, k);
      List := Without(List, k);
      DeleteOption(index);
      DeletedAgrees(order, list, vars, k);
    }
  }

  /** The list agrees with the variables. */
  ghost predicate Agrees(list: seq<Entry>, vars: map<u16, seq<u8>>) {
    forall k :: 0 <= k < |list| ==> list[k].LoadOptionIndex in vars && vars[list[k].LoadOptionIndex] == list[k].LoadOption
  }

  lemma DeletedAgrees(order: seq<u16>, list: seq<Entry>, vars: map<u16, seq<u8>>, k: nat)
    requires NoDuplicates(order) && Indices(list) == order && Agrees(list, vars) && k < |list|
    requires forall i: u16 :: i in order <==> i in vars
    ensures NoDuplicates(Without(order, k)) && Indices(Without(list, k)) == Without(order, k)
    ensures Agrees(Without(list, k), vars - {order[k]})
    ensures forall i: u16 :: i in Without(order, k) <==> i in vars - {order[k]}
  {
    WithoutKeepsApart(order, k);
    var l := Without(list, k);
    forall j | 0 <= j < |l|
      ensures l[j].LoadOptionIndex in vars && l[j].LoadOptionIndex != order[k]
    {
      assert Indices(l)[j] == Without(order, k)[j];
      assert Without(order, k)[j] in Without(order, k);
    }
  }

  /** Whether an index is in the order. */
  method Search(order: seq<u16>, x: u16) returns (found: bool)
    ensures found <==> x in order
  {
    found := false;
    var i := 0;
    while i < |order| && !found
      invariant i <= |order| && (found <==> x in order[..i])
      decreases |order| - i, !found
    {
      if order[i] == x {
        found := true;
      }
      i := i + 1;
    }
    assert !found ==> order[..i] == order;
  }

  /** CopyMem of the later indices down by one place. */
  method ShiftDown(bootOrder: array<u16>, i: nat, ghost order: seq<u16>)
    requires bootOrder[..] == order && i < |order|
    modifies bootOrder
    ensures bootOrder[..|order| - 1] == Without(order, i)
  {
    ghost var target := Without(order, i);
    for j := i to bootOrder.Length - 1
      invariant forall k :: 0 <= k < j ==> bootOrder[k] == target[k]
      invariant forall k :: j <= k < |order| ==> bootOrder[k] == order[k]
    {
      bootOrder[j] := bootOrder[j + 1];
    }
  }

  /** The BootOrder buffer with an index taken out, one entry shorter. */
  method Shift(order: seq<u16>, index: u16) returns (s: seq<u16>)
    requires order != []
    ensures s == Shortened(order, index)
  {
    var bootOrder := new u16[|order|](k requires 0 <= k < |order| => order[k]);
    assert bootOrder[..] == order;
    var i := 0;
    while i < |order| && bootOrder[i] != index
      invariant i <= |order|
      invariant forall k :: 0 <= k < i ==> order[k] != index
    {
      i := i + 1;
    }
    if i < |order| {
      ShiftDown(bootOrder, i, order);
      FirstIs(order, index, i);
    }
    s := bootOrder[..|order| - 1];
  }

  lemma FirstIs(s: seq<u16>, x: u16, i: nat)
    requires i < |s| && s[i] == x && forall k :: 0 <= k < i ==> s[k] != x
    ensures Find(s, x) == i
  {
  }

  lemma FindIs(s: seq<u16>, k: nat)
    requires NoDuplicates(s) && k < |s|
    ensures Find(s, s[k]) == k
  {
  }

  lemma FullIffAllPresent(s: seq<u16>)
    requires NoDuplicates(s)
    ensures |s| >= 0x1_0000 <==> forall i: u16 :: i in s
  {
    if |s| < 0x1_0000 {
      SomeFree(s);
    } else {
      FullHasAll(s);
    }
  }

  /** Appending an index keeps the indices apart exactly when it is new. */
  lemma Appended(s: seq<u16>, x: u16)
    requires NoDuplicates(s)
    ensures NoDuplicates(s + [x]) <==> x !in s
  {
    if x in s {
      var i :| 0 <= i < |s| && s[i] == x;
      assert (s + [x])[i] == (s + [x])[|s|];
    }
  }
}
