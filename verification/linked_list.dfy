/** `ca.hss.math.LinkedList` over `LinkedListNode`: a doubly-linked list whose
    first and last elements sit between two sentinel nodes, one before the
    head and one after the tail, created when the list gains its first
    element. The heap is explicit: `succ` and `pred` hold the `ln_Succ` and
    `ln_Pred` fields of every node, a node absent from a map has that field
    null, and `newObject` hands out nodes never seen before. A dereference
    of null is a `NullPointer` fault. */
module LinkedList {
  import opened Results

  /** A node is either one the caller supplies or one `newObject` made. */
  datatype Node = Item(id: nat) | Made(serial: nat)

  datatype List = List(
    succ: map<Node, Node>,
    pred: map<Node, Node>,
    head: Option<Node>,
    tail: Option<Node>,
    count: int,
    nextSerial: nat)   // serial of the next node `newObject` makes

  /** A node unlinked by `removeFirst`/`removeLast`, and the heap after it. */
  datatype Removal = Removal(list: List, node: Option<Node>)

  /** The node `getFirst`/`getLast` returns, and the heap after it. */
  datatype Fetch = Fetch(list: List, node: Node)

  // ---------------------------------------------------------------------
  // The heap

  function Next(L: List, n: Node): Option<Node> {
    if n in L.succ then Some(L.succ[n]) else None
  }

  function Prev(L: List, n: Node): Option<Node> {
    if n in L.pred then Some(L.pred[n]) else None
  }

  function SetNext(L: List, n: Node, v: Option<Node>): List {
    match v
    case None => L.(succ := L.succ - {n})
    case Some(m) => L.(succ := L.succ[n := m])
  }

  function SetPrev(L: List, n: Node, v: Option<Node>): List {
    match v
    case None => L.(pred := L.pred - {n})
    case Some(m) => L.(pred := L.pred[n := m])
  }

  function Deref(o: Option<Node>): Result<Node> {
    match o
    case None => Err(NullPointer)
    case Some(n) => Ok(n)
  }

  /** `newObject`: the node `Made(L.nextSerial)`, with both fields null. */
  function Allocate(L: List): List {
    var n := Made(L.nextSerial);
    L.(succ := L.succ - {n}, pred := L.pred - {n}, nextSerial := L.nextSerial + 1)
  }

  /** The list as the constructor leaves it. */
  function Empty(): List {
    List(map[], map[], None, None, 0, 0)
  }

  // ---------------------------------------------------------------------
  // The abstraction: `w` lists the front sentinel, the elements in order and
  // the back sentinel; an empty list has no chain at all.

  /** `L` holds exactly the chain `w`: linked both ways between the
      sentinels, no node twice, the front sentinel with a null `ln_Pred`, the
      back one with a null `ln_Succ`. The back sentinel's `ln_Pred` is not
      constrained: `removeLast` leaves it pointing at the removed node and
      nothing reads it. */
  ghost predicate Valid(L: List, w: seq<Node>) {
    if w == [] then L.count == 0 && L.head.None? && L.tail.None?
    else
      && |w| >= 3
      && L.count == |w| - 2
      && L.head == Some(w[1]) && L.tail == Some(w[|w| - 2])
      && (forall i, j :: 0 <= i < j < |w| ==> w[i] != w[j])
      && Prev(L, w[0]).None? && Next(L, w[|w| - 1]).None?
      && (forall i :: 0 <= i < |w| - 1 ==> Next(L, w[i]) == Some(w[i + 1]))
      && (forall i :: 1 <= i < |w| - 1 ==> Prev(L, w[i]) == Some(w[i - 1]))
  }

  /** The elements of a chain, without its sentinels. */
  function Elements(w: seq<Node>): seq<Node> {
    if |w| >= 2 then w[1..|w| - 1] else []
  }

  /** A node that may be handed to the list: not already in it, and not one
      `newObject` has yet to make. */
  predicate Insertable(L: List, w: seq<Node>, x: Node) {
    x !in w && (x.Made? ==> x.serial < L.nextSerial)
  }

  /** The chain after `x` is inserted as element `p` (a fresh pair of
      sentinels around it when the list was empty). */
  function Insert(L: List, w: seq<Node>, p: nat, x: Node): seq<Node>
    requires w == [] || p < |w| - 1
  {
    if w == [] then [Made(L.nextSerial), x, Made(L.nextSerial + 1)]
    else w[..p + 1] + [x] + w[p + 1..]
  }

  /** The chain after the node at position `k` is unlinked. */
  function Drop(w: seq<Node>, k: nat): seq<Node>
    requires k < |w|
  {
    if |w| == 3 then [] else w[..k] + w[k + 1..]
  }

  // ---------------------------------------------------------------------
  // The operations

  function IsEmpty(L: List): (r: bool)
    ensures r <==> Size(L) == 0
  {
    L.count == 0
  }

  function Size(L: List): int {
    L.count
  }

  /** `getFirst`: the head; on an empty list a detached new node whose
      `ln_Pred` is another new node, the list itself left empty. */
  function GetFirst(L: List): (r: Fetch)
    ensures L.head.Some? ==> r == Fetch(L, L.head.value)
    ensures L.head.None? ==> r.list.head.None? && r.list.count == L.count
    ensures L.head.None? ==> r.node.Made? && r.node.serial >= L.nextSerial && r.list.nextSerial == L.nextSerial + 2
  {
    match L.head
    case Some(h) => Fetch(L, h)
    case None =>
      var n := Made(L.nextSerial);
      var L1 := Allocate(L);
      var p := Made(L1.nextSerial);
      var L2 := Allocate(L1);
      Fetch(SetNext(SetPrev(L2, n, Some(p)), p, Some(n)), n)
  }

  /** `getLast`: the mirror image of `getFirst`. */
  function GetLast(L: List): (r: Fetch)
    ensures L.tail.Some? ==> r == Fetch(L, L.tail.value)
    ensures L.tail.None? ==> r.list.tail.None? && r.list.count == L.count
    ensures L.tail.None? ==> r.node.Made? && r.node.serial >= L.nextSerial && r.list.nextSerial == L.nextSerial + 2
  {
    match L.tail
    case Some(t) => Fetch(L, t)
    case None =>
      var n := Made(L.nextSerial);
      var L1 := Allocate(L);
      var s := Made(L1.nextSerial);
      var L2 := Allocate(L1);
      Fetch(SetPrev(SetNext(L2, n, Some(s)), s, Some(n)), n)
  }

  /** `addAfter`: on an empty list `item` becomes the only element between
      two new sentinels; otherwise it is spliced in after `after`, becoming
      the tail when its successor has no successor and the head when its
      predecessor has no predecessor. */
  function AddAfter(L: List, after: Option<Node>, item: Node): (r: Result<List>)
    ensures r.Ok? || r == Err(NullPointer)
    ensures L.head.None? ==> r.Ok? && r.value.head == Some(item) && r.value.tail == Some(item) && r.value.count == 1
    ensures L.head.Some? ==> (r.Ok? <==> after.Some? && Next(L, after.value).Some?)
    ensures r.Ok? && L.head.Some? ==>
              && after.Some? && r.value.count == L.count + 1
              && Next(r.value, after.value) == Some(item) && Prev(r.value, item) == after
    ensures r.Ok? && L.head.Some? && after != Some(item) ==> Next(r.value, item) == Next(L, after.value)
    ensures r.Ok? && L.head.Some? && Next(L, after.value) != Some(item) ==>
              Prev(r.value, Next(L, after.value).value) == Some(item)
  {
    if L.head.None? then
      var f := Made(L.nextSerial);
      var L1 := Allocate(L);
      var L2 := SetNext(SetPrev(L1, item, Some(f)), f, Some(item));
      var b := Made(L2.nextSerial);
      var L3 := Allocate(L2);
      var L4 := SetPrev(SetNext(L3, item, Some(b)), b, Some(item));
      Ok(L4.(head := Some(item), tail := Some(item), count := 1))
    else
      var a :- Deref(after);
      var s :- Deref(Next(L, a));
      var L1 := SetPrev(L, s, Some(item));
      var L2 := SetNext(L1, item, Next(L1, a));
      var L3 := SetPrev(L2, item, Some(a));
      var L4 := SetNext(L3, a, Some(item));
      var s2 :- Deref(Next(L4, item));
      var L5 := if Next(L4, s2).None? then L4.(tail := Some(item)) else L4;
      var L6 := if Prev(L5, a).None? then L5.(head := Some(item)) else L5;
      Ok(L6.(count := L6.count + 1))
  }

  /** `addFirst`: insert after the head's predecessor, the front sentinel. */
  function AddFirst(L: List, item: Node): (r: Result<List>)
    ensures r.Ok? || r == Err(NullPointer)
    ensures L.head.None? ==> r.Ok? && r.value.head == Some(item) && r.value.count == 1
    ensures r.Ok? && L.head.Some? ==>
              && Prev(L, L.head.value).Some? && r.value.count == L.count + 1
              && Next(r.value, Prev(L, L.head.value).value) == Some(item)
  {
    match L.head
    case None => AddAfter(L, None, item)
    case Some(h) => AddAfter(L, Prev(L, h), item)
  }

  /** `add(item)` and `addLast`: insert after the tail. */
  function AddLast(L: List, item: Node): (r: Result<List>)
    ensures r.Ok? || r == Err(NullPointer)
    ensures L.head.None? ==> r.Ok? && r.value.head == Some(item) && r.value.count == 1
    ensures r.Ok? && L.head.Some? ==>
              && L.tail.Some? && r.value.count == L.count + 1
              && Next(r.value, L.tail.value) == Some(item) && Prev(r.value, item) == L.tail
  {
    AddAfter(L, L.tail, item)
  }

  /** `get(index)`: the lower half of the indices is reached from the head
      along `ln_Succ`, the upper half from the tail along `ln_Pred`. */
  function Get(L: List, index: int): (r: Result<Option<Node>>)
    ensures r.Ok? || r == Err(NullPointer)
    ensures L.count == 0 ==> r == Ok(None)
    ensures L.count > 0 && index == 0 ==> r == Ok(L.head)
    ensures L.count > 0 && index >= L.count ==> r == Ok(None)
    ensures L.count > 0 && index < 0 ==> r == Err(NullPointer)
  {
    if L.count == 0 then Ok(None)
    else if index == 0 then Ok(L.head)
    else if index <= L.count / 2 then
      if index < 0 then Err(NullPointer)
      else Walk(L, L.head, index, true)
    else if index >= L.count then Ok(None)
    else Walk(L, L.tail, L.count - index - 1, false)
  }

  /** `steps` hops from `node`, along `ln_Succ` when `forward`, else along
      `ln_Pred`. */
  function Walk(L: List, node: Option<Node>, steps: nat, forward: bool): (r: Result<Option<Node>>)
    ensures r.Ok? || r == Err(NullPointer)
    ensures steps > 0 && node.None? ==> r == Err(NullPointer)
    decreases steps
  {
    if steps == 0 then Ok(node)
    else
      var n :- Deref(node);
      Walk(L, if forward then Next(L, n) else Prev(L, n), steps - 1, forward)
  }

  /** `add(index, item)`: past the end appends, at 0 or on an empty list
      prepends, otherwise inserts after the predecessor of the element now
      at `index`. */
  function AddAt(L: List, index: int, item: Node): (r: Result<List>)
    ensures r.Ok? || r == Err(NullPointer)
    ensures IsEmpty(L) && L.head.None? ==> r.Ok? && r.value.head == Some(item) && r.value.count == 1
    ensures r.Ok? && L.head.Some? ==> r.value.count == L.count + 1
  {
    if index >= Size(L) then AddLast(L, item)
    else if index == 0 || IsEmpty(L) then AddFirst(L, item)
    else
      var found :- Get(L, index);
      var mn :- Deref(found);
      AddAfter(L, Prev(L, mn), item)
  }

  /** `removeFirst` as the source writes it: the new head's `ln_Pred` is set
      to the front sentinel, but the sentinel's `ln_Succ` keeps pointing at
      the removed node. */
  function RemoveFirstAsWritten(L: List): (r: Result<Removal>)
    ensures r.Ok? || r == Err(NullPointer)
    ensures r.Ok? ==> r.value.list.count == if IsEmpty(L) then 0 else L.count - 1
    ensures r.Ok? && L.count >= 2 ==>
              L.head.Some? && r.value.node == L.head && r.value.list.head == Next(L, L.head.value)
    ensures r.Ok? ==> r.value.list.succ == L.succ
  {
    if IsEmpty(L) then Ok(Removal(L, None))
    else if L.count == 1 then Ok(Removal(L.(head := None, tail := None, count := 0), L.head))
    else
      var node :- Deref(L.head);
      var s :- Deref(Next(L, node));
      var L1 := SetPrev(L, s, Prev(L, node));
      Ok(Removal(L1.(head := Next(L1, node), count := L1.count - 1), Some(node)))
  }

  /** `removeFirst` corrected: the front sentinel's `ln_Succ` is relinked
      to the new head as well, so that walking from the sentinel no longer
      meets the removed node and `get`/`addFirst` keep their documented
      meaning after a removal. */
  function RemoveFirst(L: List): (r: Result<Removal>)
    ensures r.Ok? || r == Err(NullPointer)
    ensures r.Ok? ==> r.value.list.count == if IsEmpty(L) then 0 else L.count - 1
    ensures r.Ok? && L.count >= 2 ==>
              L.head.Some? && r.value.node == L.head && r.value.list.head == Next(L, L.head.value)
    ensures r.Ok? && L.count >= 2 && L.head.Some? && Prev(L, L.head.value).Some? ==>
              Next(r.value.list, Prev(L, L.head.value).value) == r.value.list.head
  {
    if IsEmpty(L) then Ok(Removal(L, None))
    else if L.count == 1 then Ok(Removal(L.(head := None, tail := None, count := 0), L.head))
    else
      var node :- Deref(L.head);
      var s :- Deref(Next(L, node));
      var p :- Deref(Prev(L, node));
      var L1 := SetPrev(L, s, Prev(L, node));
      var L2 := SetNext(L1, p, Next(L1, node));
      Ok(Removal(L2.(head := Next(L2, node), count := L2.count - 1), Some(node)))
  }

  /** `removeLast`: a single element is taken as the head; otherwise the
      tail's predecessor is linked to the back sentinel. */
  function RemoveLast(L: List): (r: Result<Removal>)
    ensures r.Ok? || r == Err(NullPointer)
    ensures r.Ok? ==> r.value.list.count == if IsEmpty(L) then 0 else L.count - 1
    ensures r.Ok? && L.count >= 2 ==>
              L.tail.Some? && r.value.node == L.tail && r.value.list.tail == Prev(L, L.tail.value)
    ensures r.Ok? && L.count >= 2 && L.tail.Some? && Prev(L, L.tail.value).Some? ==>
              Next(r.value.list, Prev(L, L.tail.value).value) == Next(L, L.tail.value)
  {
    if IsEmpty(L) then Ok(Removal(L, None))
    else if L.count == 1 then Ok(Removal(L.(head := None, tail := None, count := 0), L.head))
    else
      var node :- Deref(L.tail);
      var p :- Deref(Prev(L, node));
      var L1 := SetNext(L, p, Next(L, node));
      Ok(Removal(L1.(tail := Prev(L1, node), count := L1.count - 1), Some(node)))
  }

  /** `remove(item)`, given the outcome `first` of the `removeFirst` it
      calls: a one-element list is emptied whatever `item` is; the first and
      last elements are recognised by a null field two hops away and go
      through `removeFirst`/`removeLast`; any other element is unlinked in
      place. */
  function RemoveWith(L: List, item: Node, first: Result<Removal>): Result<List> {
    if IsEmpty(L) then Ok(L)
    else if L.count == 1 then Ok(L.(head := None, tail := None, count := 0))
    else
      var p :- Deref(Prev(L, item));
      if Prev(L, p).None? then
        var r :- first;
        Ok(r.list)
      else
        var s :- Deref(Next(L, item));
        if Next(L, s).None? then
          var r :- RemoveLast(L);
          Ok(r.list)
        else
          var L1 := SetNext(L, p, Next(L, item));
          var s2 :- Deref(Next(L1, item));
          var L2 := SetPrev(L1, s2, Prev(L1, item));
          Ok(L2.(count := L2.count - 1))
  }

  /** `remove(item)` as the source writes it: the head goes through
      `removeFirst` as written. */
  function RemoveAsWritten(L: List, item: Node): (r: Result<List>)
    ensures r.Ok? || r == Err(NullPointer)
    ensures r.Ok? ==> r.value.count == if IsEmpty(L) then 0 else L.count - 1
  {
    RemoveWith(L, item, RemoveFirstAsWritten(L))
  }

  /** `remove(item)` with the head going through the corrected
      `removeFirst`. */
  function Remove(L: List, item: Node): (r: Result<List>)
    ensures r.Ok? || r == Err(NullPointer)
    ensures r.Ok? ==> r.value.count == if IsEmpty(L) then 0 else L.count - 1
    ensures r.Ok? && L.count >= 2 && Prev(L, item).Some? && Prev(L, Prev(L, item).value).Some?
              && Next(L, item).Some? && Next(L, Next(L, item).value).Some? ==>
              && Next(r.value, Prev(L, item).value) == Next(L, item)
              && Prev(r.value, Next(L, item).value) == Prev(L, item)
  {
    RemoveWith(L, item, RemoveFirst(L))
  }

  /** `clear`: `removeFirst` while the size is positive. */
  function Clear(L: List): (r: Result<List>)
    ensures r.Ok? || r == Err(NullPointer)
    ensures r.Ok? ==> r.value.count == if L.count > 0 then 0 else L.count
    decreases if L.count > 0 then L.count else 0
  {
    if Size(L) <= 0 then Ok(L)
    else
      var r :- RemoveFirst(L);
      Clear(r.list)
  }

  /** `clear` as the source writes it: `removeFirst` as written while the
      size is positive. No `ln_Succ` link is touched. */
  function ClearAsWritten(L: List): (r: Result<List>)
    ensures r.Ok? || r == Err(NullPointer)
    ensures r.Ok? ==> r.value.count == if L.count > 0 then 0 else L.count
    ensures r.Ok? ==> r.value.succ == L.succ
    decreases if L.count > 0 then L.count else 0
  {
    if Size(L) <= 0 then Ok(L)
    else
      var r :- RemoveFirstAsWritten(L);
      ClearAsWritten(r.list)
  }

  // ---------------------------------------------------------------------
  // Properties

  /** A new list is empty. */
  lemma EmptyIsValid()
    ensures Valid(Empty(), [])
    ensures IsEmpty(Empty()) && Size(Empty()) == 0
  {
  }

  /** `isEmpty` and `size` read the element count. */
  lemma SizeCounts(L: List, w: seq<Node>)
    requires Valid(L, w)
    ensures Size(L) == |Elements(w)|
    ensures IsEmpty(L) <==> Elements(w) == []
  {
  }

  /** On a non-empty list `getFirst`/`getLast` return the first/last element
      and change nothing. */
  lemma GetEndsPresent(L: List, w: seq<Node>)
    requires Valid(L, w) && w != []
    ensures GetFirst(L) == Fetch(L, Elements(w)[0])
    ensures GetLast(L) == Fetch(L, Elements(w)[|Elements(w)| - 1])
  {
  }

  /** On an empty list `getFirst`/`getLast` add nothing, whatever their
      documentation says: the node they return is new and not in the list,
      which stays empty. */
  lemma GetEndsEmpty(L: List)
    requires Valid(L, [])
    ensures Valid(GetFirst(L).list, []) && GetFirst(L).node == Made(L.nextSerial)
    ensures Valid(GetLast(L).list, []) && GetLast(L).node == Made(L.nextSerial)
    ensures GetFirst(L).list.nextSerial == L.nextSerial + 2 && GetLast(L).list.nextSerial == L.nextSerial + 2
  {
  }

  /** The element `w` provides for the new chain after inserting `x`. */
  lemma InsertAt(w: seq<Node>, k: nat, x: Node, i: nat)
    requires k < |w| && i <= |w|
    ensures var v := w[..k + 1] + [x] + w[k + 1..];
      |v| == |w| + 1 && v[i] == if i <= k then w[i] else if i == k + 1 then x else w[i - 1]
  {
  }

  /** The fields `addAfter` leaves when it splices `x` between `a` and its
      successor `s`. */
  lemma SpliceFields(L: List, a: Node, s: Node, x: Node)
    requires L.head.Some? && a != s && a != x && s != x && Next(L, a) == Some(s)
    ensures var r := AddAfter(L, Some(a), x);
      && r.Ok?
      && (forall n :: Next(r.value, n) == if n == a then Some(x) else if n == x then Some(s) else Next(L, n))
      && (forall n :: Prev(r.value, n) == if n == s then Some(x) else if n == x then Some(a) else Prev(L, n))
      && r.value.head == (if Prev(L, a).None? then Some(x) else L.head)
      && r.value.tail == (if Next(L, s).None? then Some(x) else L.tail)
      && r.value.count == L.count + 1
  {
  }

  /** A heap `R` linked like `L` except that `x` sits after chain node `k`
      holds the chain with `x` inserted there. */
  lemma SplicedChain(L: List, R: List, w: seq<Node>, k: nat, x: Node)
    requires Valid(L, w) && w != [] && k < |w| - 1 && x !in w
    requires forall n :: Next(R, n) == if n == w[k] then Some(x) else if n == x then Some(w[k + 1]) else Next(L, n)
    requires forall n :: Prev(R, n) == if n == w[k + 1] then Some(x) else if n == x then Some(w[k]) else Prev(L, n)
    requires R.head == (if k == 0 then Some(x) else L.head)
    requires R.tail == (if k + 1 == |w| - 1 then Some(x) else L.tail)
    requires R.count == L.count + 1
    ensures Valid(R, Insert(L, w, k, x))
  {
    var v := Insert(L, w, k, x);
    InsertShape(L, w, k, x);
    SplicedNext(L, R, w, k, x, v);
    SplicedPrev(L, R, w, k, x, v);
  }

  /** The chain with `x` after node `k`: the nodes up to `k` in place, `x`
      next, the rest one step up, still no node twice. */
  lemma InsertShape(L: List, w: seq<Node>, k: nat, x: Node)
    requires w != [] && k < |w| - 1 && x !in w
    requires forall i, j :: 0 <= i < j < |w| ==> w[i] != w[j]
    ensures var v := Insert(L, w, k, x);
      && |v| == |w| + 1
      && (forall i :: 0 <= i <= k ==> v[i] == w[i])
      && v[k + 1] == x
      && (forall i :: k + 2 <= i < |v| ==> v[i] == w[i - 1])
      && (forall i, j :: 0 <= i < j < |v| ==> v[i] != v[j])
  {
    var v := Insert(L, w, k, x);
    forall i | 0 <= i < |v|
      ensures v[i] == if i <= k then w[i] else if i == k + 1 then x else w[i - 1]
    {
      InsertAt(w, k, x, i);
    }
    forall i, j | 0 <= i < j < |v|
      ensures v[i] != v[j]
    {
      if i != k + 1 && j != k + 1 {
        var i', j' := if i <= k then i else i - 1, if j <= k then j else j - 1;
        assert v[i] == w[i'] && v[j] == w[j'] && i' < j';
      }
    }
  }

  /** The successor links of `SplicedChain`. */
  lemma SplicedNext(L: List, R: List, w: seq<Node>, k: nat, x: Node, v: seq<Node>)
    requires |w| >= 3 && k < |w| - 1 && |v| == |w| + 1 && x !in w
    requires forall i, j :: 0 <= i < j < |w| ==> w[i] != w[j]
    requires forall i :: 0 <= i < |w| - 1 ==> Next(L, w[i]) == Some(w[i + 1])
    requires forall n :: Next(R, n) == if n == w[k] then Some(x) else if n == x then Some(w[k + 1]) else Next(L, n)
    requires forall i :: 0 <= i <= k ==> v[i] == w[i]
    requires v[k + 1] == x
    requires forall i :: k + 2 <= i < |v| ==> v[i] == w[i - 1]
    ensures forall i :: 0 <= i < |v| - 1 ==> Next(R, v[i]) == Some(v[i + 1])
  {
    forall i | 0 <= i < |v| - 1
      ensures Next(R, v[i]) == Some(v[i + 1])
    {
      if i < k {
        assert v[i] == w[i] && v[i + 1] == w[i + 1] && v[i] != w[k];
      } else if i == k {
        assert v[i] == w[k] && v[i + 1] == x;
      } else if i == k + 1 {
        assert v[i + 1] == w[k + 1];
      } else {
        assert v[i] == w[i - 1] && v[i + 1] == w[i] && v[i] != w[k];
      }
    }
  }

  /** The predecessor links of `SplicedChain`. */
  lemma SplicedPrev(L: List, R: List, w: seq<Node>, k: nat, x: Node, v: seq<Node>)
    requires |w| >= 3 && k < |w| - 1 && |v| == |w| + 1 && x !in w
    requires forall i, j :: 0 <= i < j < |w| ==> w[i] != w[j]
    requires forall i :: 1 <= i < |w| - 1 ==> Prev(L, w[i]) == Some(w[i - 1])
    requires forall n :: Prev(R, n) == if n == w[k + 1] then Some(x) else if n == x then Some(w[k]) else Prev(L, n)
    requires forall i :: 0 <= i <= k ==> v[i] == w[i]
    requires v[k + 1] == x
    requires forall i :: k + 2 <= i < |v| ==> v[i] == w[i - 1]
    ensures forall i :: 1 <= i < |v| - 1 ==> Prev(R, v[i]) == Some(v[i - 1])
  {
    forall i | 1 <= i < |v| - 1
      ensures Prev(R, v[i]) == Some(v[i - 1])
    {
      if i <= k {
        assert v[i] == w[i] && v[i - 1] == w[i - 1] && v[i] != w[k + 1];
      } else if i == k + 1 {
        assert v[i - 1] == w[k];
      } else if i == k + 2 {
        assert v[i] == w[k + 1] && v[i - 1] == x;
      } else {
        assert v[i] == w[i - 1] && v[i - 1] == w[i - 2] && v[i] != w[k + 1];
      }
    }
  }


  /** Splicing after a chain node: the chain gains `x` right behind it. */
  lemma AddAfterSplices(L: List, w: seq<Node>, k: nat, x: Node)
    requires Valid(L, w) && w != [] && k < |w| - 1 && x !in w
    ensures AddAfter(L, Some(w[k]), x).Ok?
    ensures Valid(AddAfter(L, Some(w[k]), x).value, Insert(L, w, k, x))
  {
    SpliceFields(L, w[k], w[k + 1], x);
    if k + 1 < |w| - 1 {
      assert Next(L, w[k + 1]) == Some(w[k + 2]);
    }
    if k > 0 {
      assert Prev(L, w[k]) == Some(w[k - 1]);
    }
    SplicedChain(L, AddAfter(L, Some(w[k]), x).value, w, k, x);
  }

  /** Adding to an empty list makes two new sentinels around the element. */
  lemma AddAfterStarts(L: List, after: Option<Node>, x: Node)
    requires Valid(L, []) && Insertable(L, [], x)
    ensures AddAfter(L, after, x).Ok?
    ensures Valid(AddAfter(L, after, x).value, Insert(L, [], 0, x))
  {
  }

  /** The elements after an insertion at element position `p`. */
  lemma InsertElements(L: List, w: seq<Node>, p: nat, x: Node)
    requires (w == [] && p == 0) || (w != [] && |w| >= 2 && p <= |w| - 2)
    ensures Elements(Insert(L, w, p, x)) == Elements(w)[..p] + [x] + Elements(w)[p..]
  {
    if w != [] {
      var v := Insert(L, w, p, x);
      assert Elements(v) == w[1..p + 1] + [x] + w[p + 1..|w| - 1];
    }
  }

  /** `addFirst` puts the node before every element. */
  lemma AddFirstPrepends(L: List, w: seq<Node>, x: Node)
    requires Valid(L, w) && Insertable(L, w, x)
    ensures AddFirst(L, x).Ok?
    ensures Valid(AddFirst(L, x).value, Insert(L, w, 0, x))
    ensures Elements(Insert(L, w, 0, x)) == [x] + Elements(w)
    ensures AddFirst(L, x).value.head == Some(x) && AddFirst(L, x).value.count == L.count + 1
  {
    InsertElements(L, w, 0, x);
    if w == [] {
      AddAfterStarts(L, None, x);
    } else {
      AddAfterSplices(L, w, 0, x);
    }
  }

  /** `add`/`addLast` puts the node after every element. */
  lemma AddLastAppends(L: List, w: seq<Node>, x: Node)
    requires Valid(L, w) && Insertable(L, w, x)
    ensures var p := |Elements(w)|;
      && AddLast(L, x).Ok?
      && Valid(AddLast(L, x).value, Insert(L, w, p, x))
      && Elements(Insert(L, w, p, x)) == Elements(w) + [x]
      && AddLast(L, x).value.tail == Some(x) && AddLast(L, x).value.count == L.count + 1
  {
    if w == [] {
      AddAfterStarts(L, L.tail, x);
      InsertElements(L, w, 0, x);
    } else {
      AddAfterSplices(L, w, |w| - 2, x);
      InsertElements(L, w, |w| - 2, x);
      assert Elements(w)[..|w| - 2] == Elements(w);
    }
  }

  /** Walking forward from chain node `i` lands on chain node `i + steps`. */
  lemma {:induction false} WalkForward(L: List, w: seq<Node>, i: nat, steps: nat)
    requires Valid(L, w) && w != [] && i + steps < |w|
    ensures Walk(L, Some(w[i]), steps, true) == Ok(Some(w[i + steps]))
    decreases steps
  {
    if steps > 0 {
      WalkForward(L, w, i + 1, steps - 1);
    }
  }

  /** Walking backward from chain node `i` lands on chain node `i - steps`,
      as long as it does not leave through the front sentinel. */
  lemma {:induction false} WalkBackward(L: List, w: seq<Node>, i: nat, steps: nat)
    requires Valid(L, w) && w != [] && steps <= i < |w| - 1
    ensures Walk(L, Some(w[i]), steps, false) == Ok(Some(w[i - steps]))
    decreases steps
  {
    if steps > 0 {
      WalkBackward(L, w, i - 1, steps - 1);
    }
  }

  /** `get` returns the element at `index`, and null past the end or on an
      empty list. */
  lemma GetIndexes(L: List, w: seq<Node>, index: nat)
    requires Valid(L, w)
    ensures Get(L, index) == Ok(if index < |Elements(w)| then Some(Elements(w)[index]) else None)
  {
    if w != [] && 0 < index < |w| - 2 {
      if index <= L.count / 2 {
        WalkForward(L, w, 1, index);
      } else {
        WalkBackward(L, w, |w| - 2, L.count - index - 1);
      }
    }
  }

  /** `add(index, item)` inserts at `index`, or at the end when `index` is
      past it. */
  lemma AddAtPlaces(L: List, w: seq<Node>, index: nat, x: Node)
    requires Valid(L, w) && Insertable(L, w, x)
    ensures var p := if index < |Elements(w)| then index else |Elements(w)|;
      && AddAt(L, index, x).Ok?
      && Valid(AddAt(L, index, x).value, Insert(L, w, p, x))
      && Elements(Insert(L, w, p, x)) == Elements(w)[..p] + [x] + Elements(w)[p..]
  {
    if index >= L.count {
      AddAtEnd(L, w, index, x);
    } else if index == 0 {
      AddAtFront(L, w, x);
    } else {
      AddAtMiddle(L, w, index, x);
    }
  }

  /** `add(index)` at or past the end appends. */
  lemma AddAtEnd(L: List, w: seq<Node>, index: nat, x: Node)
    requires Valid(L, w) && Insertable(L, w, x) && index >= L.count
    ensures var p := |Elements(w)|;
      && AddAt(L, index, x).Ok?
      && Valid(AddAt(L, index, x).value, Insert(L, w, p, x))
      && Elements(Insert(L, w, p, x)) == Elements(w)[..p] + [x] + Elements(w)[p..]
  {
    AddLastAppends(L, w, x);
    assert Elements(w)[|Elements(w)|..] == [];
    assert Elements(w)[..|Elements(w)|] == Elements(w);
  }

  /** `add(0)` on a non-empty list prepends. */
  lemma AddAtFront(L: List, w: seq<Node>, x: Node)
    requires Valid(L, w) && Insertable(L, w, x) && 0 < L.count
    ensures AddAt(L, 0, x).Ok?
    ensures Valid(AddAt(L, 0, x).value, Insert(L, w, 0, x))
    ensures Elements(Insert(L, w, 0, x)) == Elements(w)[..0] + [x] + Elements(w)[0..]
  {
    AddFirstPrepends(L, w, x);
    assert Elements(w)[..0] + [x] + Elements(w)[0..] == [x] + Elements(w);
  }

  lemma AddAtMiddle(L: List, w: seq<Node>, index: nat, x: Node)
    requires Valid(L, w) && Insertable(L, w, x) && 0 < index < L.count
    ensures AddAt(L, index, x).Ok?
    ensures Valid(AddAt(L, index, x).value, Insert(L, w, index, x))
    ensures Elements(Insert(L, w, index, x)) == Elements(w)[..index] + [x] + Elements(w)[index..]
  {
    AddAtInside(L, w, index, x);
    AddAfterSplices(L, w, index, x);
    InsertElements(L, w, index, x);
  }

  /** Inside the list `add(index, item)` splices after the element before
      `index`. */
  lemma AddAtInside(L: List, w: seq<Node>, index: nat, x: Node)
    requires Valid(L, w) && 0 < index < L.count
    ensures AddAt(L, index, x) == AddAfter(L, Some(w[index]), x)
  {
    GetIndexes(L, w, index);
    assert Prev(L, w[index + 1]) == Some(w[index]);
  }

  /** The chain without its node at `k`, seen element-wise. */
  lemma DropAt(w: seq<Node>, k: nat, i: nat)
    requires 1 <= k < |w| - 1 && |w| > 3 && i < |w| - 1
    ensures var v := Drop(w, k);
      |v| == |w| - 1 && v[i] == if i < k then w[i] else w[i + 1]
  {
  }

  /** The elements after dropping the element at chain position `k`. */
  lemma DropElements(w: seq<Node>, k: nat)
    requires 1 <= k < |w| - 1
    ensures Elements(Drop(w, k)) == Elements(w)[..k - 1] + Elements(w)[k..]
  {
    if |w| > 3 {
      assert Elements(Drop(w, k)) == w[1..k] + w[k + 1..|w| - 1];
    }
  }

  /** The one-element list empties whichever end is removed. */
  lemma RemoveSingle(L: List, w: seq<Node>)
    requires Valid(L, w) && |w| == 3
    ensures RemoveFirst(L) == Ok(Removal(L.(head := None, tail := None, count := 0), Some(w[1])))
    ensures RemoveLast(L) == Ok(Removal(L.(head := None, tail := None, count := 0), Some(w[1])))
    ensures Valid(RemoveFirst(L).value.list, Drop(w, 1))
  {
  }

  /** A heap `R` linked like `L` except that chain node `k - 1` skips to
      chain node `k + 1` holds the chain without node `k`. */
  lemma UnlinkedChain(L: List, R: List, w: seq<Node>, k: nat)
    requires Valid(L, w) && |w| > 3 && 1 <= k < |w| - 1
    requires forall n :: Next(R, n) == if n == w[k - 1] then Some(w[k + 1]) else Next(L, n)
    requires forall n :: n != w[k + 1] ==> Prev(R, n) == Prev(L, n)
    requires k + 1 < |w| - 1 ==> Prev(R, w[k + 1]) == Some(w[k - 1])
    requires R.head == (if k == 1 then Some(w[2]) else L.head)
    requires R.tail == (if k == |w| - 2 then Some(w[k - 1]) else L.tail)
    requires R.count == L.count - 1
    ensures Valid(R, Drop(w, k))
  {
    var v := Drop(w, k);
    DropShape(w, k);
    UnlinkedNext(L, R, w, k, v);
    UnlinkedPrev(L, R, w, k, v);
  }

  /** The chain without node `k`: the nodes before it in place, the nodes
      after it one step down, still no node twice. */
  lemma DropShape(w: seq<Node>, k: nat)
    requires |w| > 3 && 1 <= k < |w| - 1
    requires forall i, j :: 0 <= i < j < |w| ==> w[i] != w[j]
    ensures var v := Drop(w, k);
      && |v| == |w| - 1
      && (forall i :: 0 <= i < k ==> v[i] == w[i])
      && (forall i :: k <= i < |v| ==> v[i] == w[i + 1])
      && (forall i, j :: 0 <= i < j < |v| ==> v[i] != v[j])
  {
    var v := Drop(w, k);
    forall i | 0 <= i < |v|
      ensures v[i] == if i < k then w[i] else w[i + 1]
    {
      DropAt(w, k, i);
    }
    forall i, j | 0 <= i < j < |v|
      ensures v[i] != v[j]
    {
      var i', j' := if i < k then i else i + 1, if j < k then j else j + 1;
      assert v[i] == w[i'] && v[j] == w[j'] && i' < j';
    }
  }

  /** The successor links of `UnlinkedChain`. */
  lemma UnlinkedNext(L: List, R: List, w: seq<Node>, k: nat, v: seq<Node>)
    requires |w| > 3 && 1 <= k < |w| - 1 && |v| == |w| - 1
    requires forall i, j :: 0 <= i < j < |w| ==> w[i] != w[j]
    requires forall i :: 0 <= i < |w| - 1 ==> Next(L, w[i]) == Some(w[i + 1])
    requires forall n :: Next(R, n) == if n == w[k - 1] then Some(w[k + 1]) else Next(L, n)
    requires forall i :: 0 <= i < k ==> v[i] == w[i]
    requires forall i :: k <= i < |v| ==> v[i] == w[i + 1]
    ensures forall i :: 0 <= i < |v| - 1 ==> Next(R, v[i]) == Some(v[i + 1])
  {
    forall i | 0 <= i < |v| - 1
      ensures Next(R, v[i]) == Some(v[i + 1])
    {
      if i < k - 1 {
        assert v[i] == w[i] && v[i + 1] == w[i + 1] && v[i] != w[k - 1];
      } else if i >= k {
        assert v[i] == w[i + 1] && v[i + 1] == w[i + 2] && v[i] != w[k - 1];
      } else {
        assert v[i] == w[k - 1] && v[i + 1] == w[k + 1];
      }
    }
  }

  /** The predecessor links of `UnlinkedChain`. */
  lemma UnlinkedPrev(L: List, R: List, w: seq<Node>, k: nat, v: seq<Node>)
    requires |w| > 3 && 1 <= k < |w| - 1 && |v| == |w| - 1
    requires forall i, j :: 0 <= i < j < |w| ==> w[i] != w[j]
    requires forall i :: 1 <= i < |w| - 1 ==> Prev(L, w[i]) == Some(w[i - 1])
    requires forall n :: n != w[k + 1] ==> Prev(R, n) == Prev(L, n)
    requires k + 1 < |w| - 1 ==> Prev(R, w[k + 1]) == Some(w[k - 1])
    requires forall i :: 0 <= i < k ==> v[i] == w[i]
    requires forall i :: k <= i < |v| ==> v[i] == w[i + 1]
    ensures forall i :: 1 <= i < |v| - 1 ==> Prev(R, v[i]) == Some(v[i - 1])
  {
    forall i | 1 <= i < |v| - 1
      ensures Prev(R, v[i]) == Some(v[i - 1])
    {
      if i < k {
        assert v[i] == w[i] && v[i - 1] == w[i - 1] && v[i] != w[k + 1];
      } else if i > k {
        assert v[i] == w[i + 1] && v[i - 1] == w[i] && v[i] != w[k + 1];
      } else {
        assert v[i] == w[k + 1] && v[i - 1] == w[k - 1];
      }
    }
  }

  /** The fields `removeFirst` leaves when it unlinks the head `node`
      between the front sentinel `f` and its successor `s`. */
  lemma RemoveFirstFields(L: List, f: Node, node: Node, s: Node)
    requires L.count >= 2 && L.head == Some(node)
    requires Prev(L, node) == Some(f) && Next(L, node) == Some(s)
    requires f != node && node != s && f != s
    ensures var r := RemoveFirst(L);
      && r.Ok? && r.value.node == Some(node)
      && (forall n :: Next(r.value.list, n) == if n == f then Some(s) else Next(L, n))
      && (forall n :: Prev(r.value.list, n) == if n == s then Some(f) else Prev(L, n))
      && r.value.list.head == Some(s) && r.value.list.tail == L.tail
      && r.value.list.count == L.count - 1
  {
  }

  /** The fields `removeLast` leaves when it unlinks the tail `node` between
      `p` and the back sentinel `b`; the sentinel's `ln_Pred` is untouched. */
  lemma RemoveLastFields(L: List, p: Node, node: Node, b: Node)
    requires L.count >= 2 && L.tail == Some(node)
    requires Prev(L, node) == Some(p) && Next(L, node) == Some(b)
    requires p != node
    ensures var r := RemoveLast(L);
      && r.Ok? && r.value.node == Some(node)
      && (forall n :: Next(r.value.list, n) == if n == p then Some(b) else Next(L, n))
      && (forall n :: Prev(r.value.list, n) == Prev(L, n))
      && r.value.list.tail == Some(p) && r.value.list.head == L.head
      && r.value.list.count == L.count - 1
  {
  }

  /** The fields `remove` leaves when `item` has neighbours `p` and `s` that
      are not sentinels. */
  lemma RemoveMiddleFields(L: List, p: Node, item: Node, s: Node)
    requires L.count >= 2
    requires Prev(L, item) == Some(p) && Next(L, item) == Some(s)
    requires Prev(L, p).Some? && Next(L, s).Some?
    requires p != item && item != s && p != s
    ensures var r := Remove(L, item);
      && r.Ok?
      && (forall n :: Next(r.value, n) == if n == p then Some(s) else Next(L, n))
      && (forall n :: Prev(r.value, n) == if n == s then Some(p) else Prev(L, n))
      && r.value.head == L.head && r.value.tail == L.tail
      && r.value.count == L.count - 1
  {
  }

  /** `removeFirst` on a list of two or more unlinks the head and keeps the
      rest in order. */
  lemma RemoveFirstUnlinks(L: List, w: seq<Node>)
    requires Valid(L, w) && |w| > 3
    ensures RemoveFirst(L).Ok? && RemoveFirst(L).value.node == Some(w[1])
    ensures Valid(RemoveFirst(L).value.list, Drop(w, 1))
  {
    RemoveFirstFields(L, w[0], w[1], w[2]);
    UnlinkedChain(L, RemoveFirst(L).value.list, w, 1);
  }

  /** `removeLast` on a list of two or more unlinks the tail and keeps the
      rest in order. */
  lemma RemoveLastUnlinks(L: List, w: seq<Node>)
    requires Valid(L, w) && |w| > 3
    ensures RemoveLast(L).Ok? && RemoveLast(L).value.node == Some(w[|w| - 2])
    ensures Valid(RemoveLast(L).value.list, Drop(w, |w| - 2))
  {
    var k := |w| - 2;
    RemoveLastFields(L, w[k - 1], w[k], w[k + 1]);
    UnlinkedChain(L, RemoveLast(L).value.list, w, k);
  }

  /** An element strictly inside the list is unlinked in place. */
  lemma RemoveMiddleUnlinks(L: List, w: seq<Node>, k: nat)
    requires Valid(L, w) && 2 <= k < |w| - 2
    ensures Remove(L, w[k]).Ok?
    ensures Valid(Remove(L, w[k]).value, Drop(w, k))
  {
    assert Prev(L, w[k - 1]) == Some(w[k - 2]);
    assert Next(L, w[k + 1]) == Some(w[k + 2]);
    RemoveMiddleFields(L, w[k - 1], w[k], w[k + 1]);
    UnlinkedChain(L, Remove(L, w[k]).value, w, k);
  }

  /** The corrected `remove` unlinks any element of the list and keeps the
      others in order; on a one-element list it empties the list. */
  lemma RemoveUnlinks(L: List, w: seq<Node>, k: nat)
    requires Valid(L, w) && 1 <= k < |w| - 1
    ensures Remove(L, w[k]).Ok?
    ensures Valid(Remove(L, w[k]).value, Drop(w, k))
    ensures Elements(Drop(w, k)) == Elements(w)[..k - 1] + Elements(w)[k..]
    ensures Remove(L, w[k]).value.count == L.count - 1
  {
    DropElements(w, k);
    if |w| > 3 {
      if k == 1 {
        RemoveFirstUnlinks(L, w);
      } else if k == |w| - 2 {
        assert Prev(L, w[k - 1]) == Some(w[k - 2]);
        RemoveLastUnlinks(L, w);
      } else {
        RemoveMiddleUnlinks(L, w, k);
      }
    }
  }

  /** `remove` on an empty list does nothing; on a one-element list it
      empties the list whatever node it is given, even one not in it. Both
      versions of `remove` agree here. */
  lemma RemoveSmall(L: List, w: seq<Node>, item: Node)
    requires Valid(L, w) && |Elements(w)| <= 1
    ensures w == [] ==> Remove(L, item) == Ok(L)
    ensures Remove(L, item).Ok? && Valid(Remove(L, item).value, [])
    ensures RemoveAsWritten(L, item) == Remove(L, item)
  {
  }

  /** As written, `remove` of the head of a list of two or more is
      `removeFirst` as written, so it leaves the front sentinel's `ln_Succ`
      on the removed node and the heap no longer holds the shortened chain. */
  lemma RemoveAsWrittenHeadStale(L: List, w: seq<Node>)
    requires Valid(L, w) && |w| > 3
    ensures RemoveFirstAsWritten(L).Ok?
    ensures RemoveAsWritten(L, w[1]) == Ok(RemoveFirstAsWritten(L).value.list)
    ensures Next(RemoveAsWritten(L, w[1]).value, w[0]) == Some(w[1])
    ensures !Valid(RemoveAsWritten(L, w[1]).value, Drop(w, 1))
  {
    RemoveFirstAsWrittenLeavesStaleLink(L, w);
  }

  /** Away from the head of a longer list, `remove` as written is the
      corrected `remove`: it unlinks the element, keeps the others in order
      and decrements the count. */
  lemma RemoveAsWrittenUnlinks(L: List, w: seq<Node>, k: nat)
    requires Valid(L, w) && 1 <= k < |w| - 1 && (2 <= k || |w| == 3)
    ensures RemoveAsWritten(L, w[k]) == Remove(L, w[k])
    ensures RemoveAsWritten(L, w[k]).Ok?
    ensures Valid(RemoveAsWritten(L, w[k]).value, Drop(w, k))
    ensures RemoveAsWritten(L, w[k]).value.count == L.count - 1
  {
    if |w| > 3 {
      assert Prev(L, w[k - 1]) == Some(w[k - 2]);
    }
    RemoveUnlinks(L, w, k);
  }

  /** `removeFirst` and `removeLast` return null on an empty list. */
  lemma RemoveFromEmpty(L: List)
    requires Valid(L, [])
    ensures RemoveFirst(L) == Ok(Removal(L, None))
    ensures RemoveLast(L) == Ok(Removal(L, None))
  {
  }

  /** `clear` empties any list. */
  lemma {:induction false} ClearEmpties(L: List, w: seq<Node>)
    requires Valid(L, w)
    ensures Clear(L).Ok? && Valid(Clear(L).value, [])
    decreases |w|
  {
    if w != [] {
      if |w| == 3 {
        RemoveSingle(L, w);
        assert Clear(L) == Clear(RemoveFirst(L).value.list);
        ClearEmpties(RemoveFirst(L).value.list, []);
      } else {
        RemoveFirstUnlinks(L, w);
        ClearEmpties(RemoveFirst(L).value.list, Drop(w, 1));
      }
    }
  }

  /** What `removeFirst` as written relies on: `count` elements `e`, the
      first of them the head, each one's `ln_Succ` naming the next. Neither
      the `ln_Pred` links nor the front sentinel's `ln_Succ` are needed. */
  ghost predicate SuccChain(L: List, e: seq<Node>) {
    && |e| >= 1 && L.count == |e| && L.head == Some(e[0])
    && forall i :: 0 <= i < |e| - 1 ==> Next(L, e[i]) == Some(e[i + 1])
  }

  /** `clear` as written empties any list whose elements are chained by
      `ln_Succ`, which its own stale sentinel link does not disturb. */
  lemma {:induction false} ClearAsWrittenChain(L: List, e: seq<Node>)
    requires SuccChain(L, e)
    ensures ClearAsWritten(L).Ok? && Valid(ClearAsWritten(L).value, [])
    decreases |e|
  {
    if |e| == 1 {
      var R := L.(head := None, tail := None, count := 0);
      assert RemoveFirstAsWritten(L) == Ok(Removal(R, L.head));
      assert ClearAsWritten(R) == Ok(R);
    } else {
      assert Next(L, e[0]) == Some(e[1]);
      var R := RemoveFirstAsWritten(L);
      assert R.Ok?;
      var e' := e[1..];
      assert forall i :: 0 <= i < |e'| - 1 ==> Next(R.value.list, e'[i]) == Some(e'[i + 1]) by {
        forall i | 0 <= i < |e'| - 1
          ensures Next(R.value.list, e'[i]) == Some(e'[i + 1])
        {
          assert e'[i] == e[i + 1] && e'[i + 1] == e[i + 2];
        }
      }
      ClearAsWrittenChain(R.value.list, e');
    }
  }

  /** `clear` as the source writes it leaves an empty list, from any valid
      list, although each `removeFirst` it calls leaves a stale link: it ends
      with the same count, head and tail as the corrected `clear`. */
  lemma ClearAsWrittenEmpties(L: List, w: seq<Node>)
    requires Valid(L, w)
    ensures ClearAsWritten(L).Ok? && Valid(ClearAsWritten(L).value, [])
    ensures Clear(L).Ok? && ClearAsWritten(L).value.count == Clear(L).value.count
    ensures ClearAsWritten(L).value.head == Clear(L).value.head
    ensures ClearAsWritten(L).value.tail == Clear(L).value.tail
  {
    ClearEmpties(L, w);
    if w != [] {
      var e := Elements(w);
      assert forall i :: 0 <= i < |e| ==> e[i] == w[i + 1];
      ClearAsWrittenChain(L, e);
    }
  }

  // ---------------------------------------------------------------------
  // The removeFirst defect

  /** The fields `removeFirst` as written leaves: the new head points back
      at the front sentinel `f`, whose `ln_Succ` is not touched. */
  lemma RemoveFirstAsWrittenFields(L: List, f: Node, node: Node, s: Node)
    requires L.count >= 2 && L.head == Some(node)
    requires Prev(L, node) == Some(f) && Next(L, node) == Some(s)
    requires node != s
    ensures var r := RemoveFirstAsWritten(L);
      && r.Ok? && r.value.node == Some(node)
      && (forall n :: Next(r.value.list, n) == Next(L, n))
      && (forall n :: Prev(r.value.list, n) == if n == s then Some(f) else Prev(L, n))
      && r.value.list.head == Some(s) && r.value.list.tail == L.tail
      && r.value.list.count == L.count - 1
  {
  }

  /** As written, `removeFirst` leaves the front sentinel's `ln_Succ` on the
      removed node, so the list no longer holds the shortened chain. */
  lemma RemoveFirstAsWrittenLeavesStaleLink(L: List, w: seq<Node>)
    requires Valid(L, w) && |w| > 3
    ensures RemoveFirstAsWritten(L).Ok? && RemoveFirstAsWritten(L).value.node == Some(w[1])
    ensures Next(RemoveFirstAsWritten(L).value.list, w[0]) == Some(w[1])
    ensures !Valid(RemoveFirstAsWritten(L).value.list, Drop(w, 1))
  {
    RemoveFirstAsWrittenFields(L, w[0], w[1], w[2]);
    assert Drop(w, 1)[0] == w[0] && Drop(w, 1)[1] == w[2];
  }

  const A: Node := Item(0)
  const B: Node := Item(1)
  const C: Node := Item(2)

  /** The list [A, B] built from a new list. */
  function TwoElements(): List {
    AddLast(AddLast(Empty(), A).value, B).value
  }

  lemma TwoElementsChain()
    ensures AddLast(Empty(), A).Ok? && AddLast(AddLast(Empty(), A).value, B).Ok?
    ensures Valid(TwoElements(), [Made(0), A, B, Made(1)])
  {
    EmptyIsValid();
    AddLastAppends(Empty(), [], A);
    var L1 := AddLast(Empty(), A).value;
    assert Insert(Empty(), [], 0, A) == [Made(0), A, Made(1)];
    AddLastAppends(L1, [Made(0), A, Made(1)], B);
    assert Insert(L1, [Made(0), A, Made(1)], 1, B) == [Made(0), A, B, Made(1)];
  }

  /** From [A, B], `removeFirst` as written and then `addFirst(C)` give a
      list whose element 1 is the removed A. */
  lemma RemovedHeadComesBack()
    ensures var r := RemoveFirstAsWritten(TwoElements());
      r.Ok? && AddFirst(r.value.list, C).Ok? && Get(AddFirst(r.value.list, C).value, 1) == Ok(Some(A))
  {
    var w := [Made(0), A, B, Made(1)];
    TwoElementsChain();
    var L := TwoElements();
    RemoveFirstAsWrittenFields(L, w[0], w[1], w[2]);
    var R := RemoveFirstAsWritten(L).value.list;
    SpliceFields(R, Made(0), A, C);
    assert AddFirst(R, C) == AddAfter(R, Some(Made(0)), C);
    var L2 := AddFirst(R, C).value;
    assert L2.head == Some(C) && L2.count == 2;
    assert Get(L2, 1) == Walk(L2, Some(C), 1, true);
    assert Next(L2, C) == Some(A);
  }

  /** The same steps with the corrected `removeFirst` give B at index 1. */
  lemma RemovedHeadStaysGone()
    ensures var r := RemoveFirst(TwoElements());
      r.Ok? && AddFirst(r.value.list, C).Ok? && Get(AddFirst(r.value.list, C).value, 1) == Ok(Some(B))
  {
    var w := [Made(0), A, B, Made(1)];
    TwoElementsChain();
    var L := TwoElements();
    RemoveFirstUnlinks(L, w);
    var F := RemoveFirst(L).value.list;
    var v := Drop(w, 1);
    assert v == [Made(0), B, Made(1)];
    AddFirstPrepends(F, v, C);
    GetIndexes(AddFirst(F, C).value, Insert(F, v, 0, C), 1);
    assert Insert(F, v, 0, C) == [Made(0), C, B, Made(1)];
  }
}
