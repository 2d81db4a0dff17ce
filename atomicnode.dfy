/** sakkara/relation/atomicnode.py and cellnode.py: an atomic node is one
    group of the relation graph (a CellNode is one without members). Object
    identity is modelled by a numeric id: the parent, child and twin sets hold
    ids, and `__lt__`, which compares hashes, compares ids. */
module AtomicNodes {
  import opened Representations

  /** The fields of one atomic node. */
  datatype AtomInfo = AtomInfo(name: string, members: seq<nat>, parents: set<nat>, children: set<nat>, twins: set<nat>)

  /** The atomic nodes' fields at one moment, by id: what the node and node-pair
      queries read. */
  type World = nat -> AtomInfo

  /** `x.is_parent_to(y)` for atomic `y`: `x` is among `y`'s parents. */
  function ParentRel(w: World): (r: (nat, nat) -> bool)
    ensures forall x, y :: r(x, y) <==> x in w(y).parents
  {
    (x: nat, y: nat) => x in w(y).parents
  }

  /** `x.is_twin_to(y)` for atomic `y`: `x` is among `y`'s twins. */
  function TwinRel(w: World): (r: (nat, nat) -> bool)
    ensures forall x, y :: r(x, y) <==> x in w(y).twins
  {
    (x: nat, y: nat) => x in w(y).twins
  }

  /** The hash order `__lt__` compares, abstracted as the id. */
  function HashKey(x: nat): int {
    x
  }

  class AtomicNode {
    const id: nat
    const name: string
    /** Ids of the member nodes (the `members` array). */
    const members: seq<nat>
    var parents: set<nat>
    var children: set<nat>
    var twins: set<nat>

    /** The parents are copied; children and twins start empty. */
    constructor (id: nat, name: string, members: seq<nat>, parents: set<nat>)
      ensures this.id == id && this.name == name && this.members == members
      ensures this.parents == parents && children == {} && twins == {}
    {
      this.id := id;
      this.name := name;
      this.members := members;
      this.parents := parents;
      children := {};
      twins := {};
    }

    /** `CellNode(name, parents)`: an atomic node with an empty member array. */
    constructor Cell(id: nat, name: string, parents: set<nat>)
      ensures this.id == id && this.name == name && members == []
      ensures this.parents == parents && children == {} && twins == {}
    {
      this.id := id;
      this.name := name;
      members := [];
      this.parents := parents;
      children := {};
      twins := {};
    }

    /** The node's entry in a World snapshot. */
    function Info(): AtomInfo
      reads this
    {
      AtomInfo(name, members, parents, children, twins)
    }

    /** `is_parent_to` against an atomic node. */
    predicate IsParentTo(other: AtomicNode)
      reads other
    {
      id in other.parents
    }

    /** `is_twin_to` against an atomic node. */
    predicate IsTwinTo(other: AtomicNode)
      reads other
    {
      id in other.twins
    }

    method AddChild(child: AtomicNode)
      modifies this
      ensures children == old(children) + {child.id}
      ensures parents == old(parents) && twins == old(twins)
    {
      children := children + {child.id};
    }

    method AddTwin(twin: AtomicNode)
      modifies this
      ensures twins == old(twins) + {twin.id}
      ensures parents == old(parents) && children == old(children)
    {
      twins := twins + {twin.id};
    }

    /** `representation`: a new, not yet reduced representation of the singleton. */
    method Representation(w: World) returns (r: Representation<nat>)
      ensures fresh(r) && r.Valid()
      ensures r.nodes == {id} && r.updated && r.beforeReduce == 1
      ensures r.isParentTo == ParentRel(w) && r.isTwinTo == TwinRel(w) && r.key == HashKey
    {
      r := new Representation({id}, ParentRel(w), TwinRel(w), HashKey);
    }

    /** `__lt__`: the hash order. */
    predicate Less(other: AtomicNode) {
      HashKey(id) < HashKey(other.id)
    }
  }

  /** The queries of a node agree with the relations that the representations of
      a World snapshot use, and an atomic node's singleton representation reduces
      to itself unless the node is its own parent. */
  lemma AtomQueriesAgree(w: World, x: AtomicNode, o: AtomicNode, l: seq<nat>)
    requires w(o.id) == o.Info() && w(x.id) == x.Info()
    requires Enumerates(l, ParentFree({x.id}, ParentRel(w)))
    ensures x.IsParentTo(o) <==> ParentRel(w)(x.id, o.id)
    ensures x.IsTwinTo(o) <==> TwinRel(w)(x.id, o.id)
    ensures Reduced({x.id}, l, ParentRel(w), TwinRel(w)) == if x.id in x.parents then {} else {x.id}
  {
    ReduceSingleton(x.id, l, ParentRel(w), TwinRel(w));
  }

  /** `__lt__` is a strict order that ranks any two nodes of different ids. */
  lemma LessStrictTotal(x: AtomicNode, y: AtomicNode, z: AtomicNode)
    ensures !x.Less(x)
    ensures x.Less(y) ==> !y.Less(x)
    ensures x.Less(y) && y.Less(z) ==> x.Less(z)
    ensures x.id != y.id ==> x.Less(y) || y.Less(x)
  {
  }

  /** Adding a child or a twin twice is the same as adding it once. */
  method AddTwiceIsIdempotent(n: AtomicNode, m: AtomicNode)
    modifies n
    ensures n.children == old(n.children) + {m.id} && n.twins == old(n.twins) + {m.id}
    ensures n.parents == old(n.parents)
  {
    n.AddChild(m);
    n.AddChild(m);
    n.AddTwin(m);
    n.AddTwin(m);
  }
}
