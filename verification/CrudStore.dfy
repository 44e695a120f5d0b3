/** The CRUD operations on the store, and the least identifier that is still free. */
module CrudStore {
  import opened Sequences
  import opened Decimal
  import opened Filesystem
  import opened Identifiers

  /** An entity is a list of names below the data path; with an identifier it names an instance. */
  datatype Key = Key(entity: seq<string>, id: string)

  datatype Op =
    | List(entity: seq<string>)
    | Get(key: Key)
    | Post(entity: seq<string>, data: string)
    | Put(key: Key, data: string)
    | Delete(key: Key)

  function KeyPath(base: Path, key: Key): Path {
    base + key.entity + [key.id]
  }

  /** A component that stands for itself: none of the three that path resolution treats specially. */
  predicate PlainComponent(c: string) {
    c !in {"", ".", ".."}
  }

  /** The components of the path an operation works on. */
  function Components(op: Op): seq<string> {
    match op
    case List(e) => e
    case Get(key) => key.entity + [key.id]
    case Post(e, _) => e
    case Put(key, _) => key.entity + [key.id]
    case Delete(key) => key.entity + [key.id]
  }

  predicate PlainOp(op: Op) {
    forall c | c in Components(op) :: PlainComponent(c)
  }

  /** Entities are named, not numbered: no component is all digits. */
  predicate Entity(e: seq<string>) {
    forall c | c in e :: !IsId(c)
  }

  /** An operation that can only write below named entities. */
  predicate NamedOp(op: Op) {
    match op
    case List(_) => true
    case Get(_) => true
    case Post(e, _) => Entity(e)
    case Put(key, _) => Entity(key.entity) && IsId(key.id)
    case Delete(key) => Entity(key.entity) && IsId(key.id)
  }

  predicate Below(base: Path, p: Path) {
    |base| < |p| && p[..|base|] == base
  }

  /** The shape the handler keeps: below the data path, files are exactly the identifiers. */
  predicate WellShaped(nodes: Store, base: Path) {
    && base != []
    && TreeClosed(nodes)
    && (forall p | p in nodes :: Below(base, p) ==> (nodes[p].File? <==> IsId(Last(p))))
    && (forall p | p in nodes :: p <= base ==> nodes[p].Dir?)
  }

  // ---------------------------------------------------------------- the least free identifier

  predicate Taken(nodes: Store, p: Path, n: nat) {
    p + [Numeral(n)] in nodes
  }

  function Numerals(n: nat): set<string> {
    set k | 1 <= k <= n :: Numeral(k)
  }

  lemma {:induction false} NumeralsSize(n: nat)
    ensures |Numerals(n)| == n
  {
    if n == 0 {
      assert Numerals(0) == {};
    } else {
      NumeralsSize(n - 1);
      if Numeral(n) in Numerals(n - 1) {
        var k :| 1 <= k <= n - 1 && Numeral(k) == Numeral(n);
        NumeralInjective(k, n);
      }
      assert Numerals(n) == Numerals(n - 1) + {Numeral(n)};
    }
  }

  lemma {:induction false} SubsetSize(a: set<string>, b: set<string>)
    requires a <= b
    ensures |a| <= |b|
  {
    if a != {} {
      var x :| x in a;
      SubsetSize(a - {x}, b - {x});
    }
  }

  /** There cannot be more identifiers in a directory than names. */
  lemma TakenBound(nodes: Store, p: Path, n: nat)
    requires forall k | 1 <= k <= n :: Taken(nodes, p, k)
    ensures n <= |Children(nodes, p)|
  {
    forall c | c in Numerals(n)
      ensures c in Children(nodes, p)
    {
      var k :| 1 <= k <= n && c == Numeral(k);
      assert Taken(nodes, p, k);
      ChildIn(nodes, p, c);
    }
    NumeralsSize(n);
    SubsetSize(Numerals(n), Children(nodes, p));
  }

  function LeastFreeFrom(nodes: Store, p: Path, n: nat): (r: nat)
    requires 1 <= n && forall k | 1 <= k < n :: Taken(nodes, p, k)
    ensures n <= r && !Taken(nodes, p, r) && forall k | 1 <= k < r :: Taken(nodes, p, k)
    decreases |Children(nodes, p)| + 1 - n
  {
    if Taken(nodes, p, n) then
      TakenBound(nodes, p, n);
      LeastFreeFrom(nodes, p, n + 1)
    else n
  }

  function LeastFree(nodes: Store, p: Path): nat {
    LeastFreeFrom(nodes, p, 1)
  }

  /** The identifier POST takes is at most one more than the number of names present. */
  lemma LeastFreeBound(nodes: Store, p: Path)
    ensures 1 <= LeastFree(nodes, p) <= |Children(nodes, p)| + 1
  {
    TakenBound(nodes, p, LeastFree(nodes, p) - 1);
  }

  lemma LeastFreeUnique(nodes: Store, p: Path, n: nat)
    requires 1 <= n && !Taken(nodes, p, n) && forall k | 1 <= k < n :: Taken(nodes, p, k)
    ensures LeastFree(nodes, p) == n
  {
  }

  /** In a directory that does not exist, 1 is free. */
  lemma MissingEntity(nodes: Store, p: Path)
    requires TreeClosed(nodes) && p != [] && p !in nodes
    ensures LeastFree(nodes, p) == 1 && Children(nodes, p) == {}
  {
    forall c
      ensures p + [c] !in nodes
    {
      var q := p + [c];
      assert q[..|p|] == p && 0 < |p| < |q|;
    }
    assert !Taken(nodes, p, 1);
  }

  // ---------------------------------------------------------------- the next store

  function Target(nodes: Store, base: Path, op: Op): (p: Path)
    ensures base != [] ==> p != []
  {
    match op
    case List(e) => base + e
    case Get(key) => KeyPath(base, key)
    case Post(e, _) => base + e + [Numeral(LeastFree(nodes, base + e))]
    case Put(key, _) => KeyPath(base, key)
    case Delete(key) => KeyPath(base, key)
  }

  function Next(nodes: Store, base: Path, op: Op): Store
    requires base != []
  {
    match op
    case List(_) => nodes
    case Get(_) => nodes
    case Post(_, data) => AfterWrite(nodes, Target(nodes, base, op), data)
    case Put(_, data) => AfterWrite(nodes, Target(nodes, base, op), data)
    case Delete(_) => AfterDelete(nodes, Target(nodes, base, op))
  }

  /** Every operation keeps the tree closed. */
  lemma NextKeepsTree(nodes: Store, base: Path, op: Op)
    requires TreeClosed(nodes) && base != []
    ensures TreeClosed(Next(nodes, base, op))
  {
    hide TreeClosed, Written, Writable;
    var p := Target(nodes, base, op);
    if (op.Post? || op.Put?) && Writable(nodes, p) {
      WrittenClosed(nodes, p, op.data);
    }
    DeletedClosed(nodes, p);
  }

  lemma KeyPathParts(base: Path, e: seq<string>, id: string)
    requires base != []
    ensures var p := base + e + [id];
            Below(base, p) && Last(p) == id && Front(p) == base + e && p[..|base|] == base
  {
    var p := base + e + [id];
    assert p[..|base|] == base;
    assert p[..|p| - 1] == base + e;
  }

  /** What can stand above an instance is a directory, in every store of the right shape. */
  lemma InstanceWritable(nodes: Store, base: Path, e: seq<string>, id: string)
    requires WellShaped(nodes, base) && Entity(e) && IsId(id)
    ensures Writable(nodes, base + e + [id])
  {
    var p := base + e + [id];
    KeyPathParts(base, e, id);
    forall q | q in Ancestors(p) && q in nodes
      ensures nodes[q].Dir?
    {
      var k :| 0 < k < |p| && q == p[..k];
      AncestorShape(base, e, id, k);
    }
  }

  lemma AncestorShape(base: Path, e: seq<string>, id: string, k: nat)
    requires base != [] && 0 < k < |base| + |e| + 1 && Entity(e)
    ensures var q := (base + e + [id])[..k]; q <= base || (Below(base, q) && !IsId(Last(q)))
  {
    var q := (base + e + [id])[..k];
    if k <= |base| {
      assert q == base[..k];
    } else {
      assert q[..|base|] == base;
      assert Last(q) == e[k - 1 - |base|] && e[k - 1 - |base|] in e;
    }
  }

  lemma WrittenShape(nodes: Store, base: Path, e: seq<string>, id: string, data: string)
    requires WellShaped(nodes, base) && Entity(e) && IsId(id)
    ensures WellShaped(Written(nodes, base + e + [id], data), base)
  {
    hide Entity, IsId, TreeClosed;
    var p := base + e + [id];
    var after := Written(nodes, p, data);
    KeyPathParts(base, e, id);
    InstanceWritable(nodes, base, e, id);
    forall q | q in after
      ensures Below(base, q) ==> (after[q].File? <==> IsId(Last(q)))
      ensures q <= base ==> after[q].Dir?
    {
      if q != p && q in Ancestors(p) {
        var k :| 0 < k < |p| && q == p[..k];
        AncestorShape(base, e, id, k);
      }
    }
    WrittenClosed(nodes, p, data);
  }

  /** Operations on named entities keep the shape of the store, and their writes succeed. */
  lemma NextKeepsShape(nodes: Store, base: Path, op: Op)
    requires WellShaped(nodes, base) && NamedOp(op)
    ensures WellShaped(Next(nodes, base, op), base)
    ensures op.Post? || op.Put? ==> Writable(nodes, Target(nodes, base, op))
  {
    match op {
      case List(_) =>
      case Get(_) =>
      case Post(e, data) =>
        var id := Numeral(LeastFree(nodes, base + e));
        InstanceWritable(nodes, base, e, id);
        WrittenShape(nodes, base, e, id, data);
      case Put(key, data) =>
        InstanceWritable(nodes, base, key.entity, key.id);
        WrittenShape(nodes, base, key.entity, key.id, data);
      case Delete(key) => DeletedClosed(nodes, KeyPath(base, key));
    }
  }
}
