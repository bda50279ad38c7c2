/** The links between the spatial tree and the shapes it holds: each held
    shape names the tree as its parent and says which half holds it. */
module Links {
  import Shapes

  /** Every shape of the registry and of the static list is an object other
      than `tree` that names `tree` as its parent, with the `dynamic` flag of
      the half that holds it. */
  ghost predicate LinkedTo<E>(tree: object, dyn: map<Shapes.Shape, E>, ss: seq<Shapes.Shape>)
    reads dyn.Keys, set s | s in ss
  {
    (forall s :: s in dyn ==> s != tree && s.parent == tree && s.dynamic) &&
    (forall s :: s in ss ==> s != tree && s.parent == tree && !s.dynamic)
  }

  /** A dynamic shape of `tree` joining the registry keeps the links. */
  lemma LinkedJoin<E>(tree: object, dyn: map<Shapes.Shape, E>, ss: seq<Shapes.Shape>, s: Shapes.Shape, e: E)
    requires LinkedTo(tree, dyn, ss) && s != tree && s.parent == tree && s.dynamic
    ensures LinkedTo(tree, dyn[s := e], ss)
  {
  }

  /** A shape leaving the registry keeps the links. */
  lemma LinkedLeave<E>(tree: object, dyn: map<Shapes.Shape, E>, ss: seq<Shapes.Shape>, s: Shapes.Shape)
    requires LinkedTo(tree, dyn, ss)
    ensures LinkedTo(tree, dyn - {s}, ss)
  {
  }

  /** A static shape of `tree` joining the static list keeps the links. */
  lemma LinkedStaticJoin<E>(tree: object, dyn: map<Shapes.Shape, E>, ss: seq<Shapes.Shape>, s: Shapes.Shape)
    requires LinkedTo(tree, dyn, ss) && s != tree && s.parent == tree && !s.dynamic
    ensures LinkedTo(tree, dyn, ss + [s])
  {
  }

  /** Any sublist of the static list keeps the links. */
  lemma LinkedStaticLeave<E>(tree: object, dyn: map<Shapes.Shape, E>, ss: seq<Shapes.Shape>, rest: seq<Shapes.Shape>)
    requires LinkedTo(tree, dyn, ss) && forall x :: x in rest ==> x in ss
    ensures LinkedTo(tree, dyn, rest)
  {
  }
}
