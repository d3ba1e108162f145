/** Properties of the decomposition (crates/ui0/src/jsx.rs): the forest is
    aligned, every slot list is ordered and bounded by its template, there is
    one pair per component plus the root's, one component slot per
    component, and the walk fails exactly on the unsupported inputs. */
module JsxProperties {
  import opened Jsx

  // ---------------------------------------------------------------------
  // Well-formed slot lists
  // ---------------------------------------------------------------------

  predicate NonDecreasing(ss: seq<Slot>)
  {
    forall i, j :: 0 <= i < j < |ss| ==> ss[i].index <= ss[j].index
  }

  predicate Within(ss: seq<Slot>, lo: nat, hi: nat)
  {
    forall i :: 0 <= i < |ss| ==> lo <= ss[i].index <= hi
  }

  /** A slot list fits its template: ordered, and every index is an
      insertion point of the template. */
  predicate Fits(t: Template, ss: seq<Slot>)
  {
    NonDecreasing(ss) && Within(ss, 0, |t|)
  }

  predicate WellFormed(f: Forest)
  {
    && |f.templates| == |f.slotLists|
    && forall k :: 0 <= k < |f.templates| ==> Fits(f.templates[k], f.slotLists[k])
  }

  /** A piece emitted at `base`: its closed pairs are aligned and fit, and
      its own slots are ordered and point into the atoms it appended. */
  predicate Sound(p: Piece, base: nat)
  {
    && |p.templates| == |p.slotLists|
    && NonDecreasing(p.slots)
    && Within(p.slots, base, base + |p.atoms|)
    && forall k :: 0 <= k < |p.templates| ==> Fits(p.templates[k], p.slotLists[k])
  }

  lemma ThenSound(p: Piece, q: Piece, base: nat)
    requires Sound(p, base) && Sound(q, base + |p.atoms|)
    ensures Sound(Then(p, q), base)
  {
    var r := Then(p, q);
    forall k | 0 <= k < |r.templates|
      ensures Fits(r.templates[k], r.slotLists[k])
    {
      if k >= |p.templates| {
        assert r.templates[k] == q.templates[k - |p.templates|];
        assert r.slotLists[k] == q.slotLists[k - |p.templates|];
      }
    }
  }

  lemma {:induction false} ElementSound(e: JsxElement, base: nat)
    requires EmitElement(e, base).Ok?
    ensures Sound(EmitElement(e, base).value, base)
    decreases e, 1, 0
  {
    match e.name
    case NonIdentifier =>
    case Identifier(name) =>
      if IsComponentName(name) {
        ChildrenSound(e, |e.children|, 0);
        var inner := EmitChildren(e, |e.children|, 0).value;
        var p := EmitElement(e, base).value;
        forall k | 0 <= k < |p.templates|
          ensures Fits(p.templates[k], p.slotLists[k])
        {
          if k == |inner.templates| {
            assert p.templates[k] == inner.atoms && p.slotLists[k] == inner.slots;
          } else {
            assert p.templates[k] == inner.templates[k] && p.slotLists[k] == inner.slotLists[k];
          }
        }
      } else {
        ChildrenSound(e, |e.children|, base + 3);
      }
  }

  lemma {:induction false} ChildrenSound(e: JsxElement, k: nat, base: nat)
    requires k <= |e.children| && EmitChildren(e, k, base).Ok?
    ensures Sound(EmitChildren(e, k, base).value, base)
    decreases e, 0, k
  {
    if k > 0 {
      ChildrenSound(e, k - 1, base);
      var prev := EmitChildren(e, k - 1, base).value;
      var at := base + |prev.atoms|;
      ChildSound(e, k - 1, at);
      ThenSound(prev, EmitChild(e, k - 1, at).value, base);
    }
  }

  lemma {:induction false} ChildSound(e: JsxElement, k: nat, at: nat)
    requires k < |e.children| && EmitChild(e, k, at).Ok?
    ensures Sound(EmitChild(e, k, at).value, at)
    decreases e, 0, k
  {
    match e.children[k]
    case ChildElement(child) => ElementSound(child, at);
    case _ =>
  }


  /** The forest is aligned and every slot list is non-decreasing and
      bounded by the final length of its template. */
  lemma WalkWellFormed(root: JsxElement)
    requires Walk(root).Ok?
    ensures WellFormed(Walk(root).value)
  {
    if root.name.Identifier? {
      ElementSound(root, 0);
      var p := EmitElement(root, 0).value;
      var f := Walk(root).value;
      forall k | 0 <= k < |f.templates|
        ensures Fits(f.templates[k], f.slotLists[k])
      {
        if k == |p.templates| {
          assert f.templates[k] == p.atoms && f.slotLists[k] == p.slots;
        } else {
          assert f.templates[k] == p.templates[k] && f.slotLists[k] == p.slotLists[k];
        }
      }
    }
  }

  // ---------------------------------------------------------------------
  // Counting components
  // ---------------------------------------------------------------------

  /** The component elements the walk visits: those reached through
      identifier-named elements (a non-identifier element is skipped with
      its whole subtree). */
  function ComponentsIn(e: JsxElement): nat
    decreases e, 1, 0
  {
    match e.name
    case NonIdentifier => 0
    case Identifier(name) =>
      (if IsComponentName(name) then 1 else 0) + ComponentsInChildren(e, |e.children|)
  }

  function ComponentsInChildren(e: JsxElement, k: nat): nat
    requires k <= |e.children|
    decreases e, 0, k
  {
    if k == 0 then 0 else ComponentsInChildren(e, k - 1) + ComponentsInChild(e, k - 1)
  }

  /** Components written at the `k`-th child position of `e`. */
  function ComponentsInChild(e: JsxElement, k: nat): nat
    requires k < |e.children|
    decreases e, 0, k
  {
    match e.children[k]
    case ChildElement(child) => ComponentsIn(child)
    case _ => 0
  }


  /** The number of component slots in one slot list. */
  function ComponentSlots(ss: seq<Slot>): nat
  {
    if ss == [] then 0
    else ComponentSlots(ss[..|ss| - 1]) + (if ss[|ss| - 1].kind.Component? then 1 else 0)
  }

  function ComponentSlotsIn(lists: seq<seq<Slot>>): nat
  {
    if lists == [] then 0
    else ComponentSlotsIn(lists[..|lists| - 1]) + ComponentSlots(lists[|lists| - 1])
  }

  lemma {:induction false} ComponentSlotsAppend(a: seq<Slot>, b: seq<Slot>)
    ensures ComponentSlots(a + b) == ComponentSlots(a) + ComponentSlots(b)
    decreases |b|
  {
    if b != [] {
      var b' := b[..|b| - 1];
      assert (a + b)[..|a + b| - 1] == a + b';
      ComponentSlotsAppend(a, b');
    } else {
      assert a + b == a;
    }
  }

  lemma {:induction false} ComponentSlotsInAppend(a: seq<seq<Slot>>, b: seq<seq<Slot>>)
    ensures ComponentSlotsIn(a + b) == ComponentSlotsIn(a) + ComponentSlotsIn(b)
    decreases |b|
  {
    if b != [] {
      var b' := b[..|b| - 1];
      assert (a + b)[..|a + b| - 1] == a + b';
      ComponentSlotsInAppend(a, b');
    } else {
      assert a + b == a;
    }
  }

  /** Component slots recorded in the open frame and in the closed pairs. */
  function PieceComponentSlots(p: Piece): nat
  {
    ComponentSlots(p.slots) + ComponentSlotsIn(p.slotLists)
  }

  lemma ThenComponentSlots(p: Piece, q: Piece)
    ensures PieceComponentSlots(Then(p, q)) == PieceComponentSlots(p) + PieceComponentSlots(q)
  {
    ComponentSlotsAppend(p.slots, q.slots);
    ComponentSlotsInAppend(p.slotLists, q.slotLists);
  }

  /** A component's piece holds its own slot besides its children's. */
  lemma ComponentPieceSlots(e: JsxElement, base: nat, inner: Piece)
    ensures PieceComponentSlots(Piece([], [Slot(base, Component(e))], inner.templates + [inner.atoms],
                                      inner.slotLists + [inner.slots]))
            == PieceComponentSlots(inner) + 1
  {
    var own := [Slot(base, Component(e))];
    assert own[..0] == [];
    assert ComponentSlots(own) == 1;
    ComponentSlotsInAppend(inner.slotLists, [inner.slots]);
    assert [inner.slots][..0] == [];
    assert ComponentSlotsIn([inner.slots]) == ComponentSlots(inner.slots);
  }

  lemma {:induction false} ElementCounts(e: JsxElement, base: nat)
    requires EmitElement(e, base).Ok?
    ensures |EmitElement(e, base).value.templates| == ComponentsIn(e)
    ensures PieceComponentSlots(EmitElement(e, base).value) == ComponentsIn(e)
    decreases e, 1, 0
  {
    match e.name
    case NonIdentifier =>
    case Identifier(name) =>
      if IsComponentName(name) {
        ChildrenCounts(e, |e.children|, 0);
        ComponentPieceSlots(e, base, EmitChildren(e, |e.children|, 0).value);
      } else {
        ChildrenCounts(e, |e.children|, base + 3);
      }
  }

  lemma {:induction false} ChildrenCounts(e: JsxElement, k: nat, base: nat)
    requires k <= |e.children| && EmitChildren(e, k, base).Ok?
    ensures |EmitChildren(e, k, base).value.templates| == ComponentsInChildren(e, k)
    ensures PieceComponentSlots(EmitChildren(e, k, base).value) == ComponentsInChildren(e, k)
    decreases e, 0, k
  {
    if k > 0 {
      ChildrenCounts(e, k - 1, base);
      var prev := EmitChildren(e, k - 1, base).value;
      var at := base + |prev.atoms|;
      ChildCounts(e, k - 1, at);
      ThenComponentSlots(prev, EmitChild(e, k - 1, at).value);
    }
  }

  lemma {:induction false} ChildCounts(e: JsxElement, k: nat, at: nat)
    requires k < |e.children| && EmitChild(e, k, at).Ok?
    ensures |EmitChild(e, k, at).value.templates| == ComponentsInChild(e, k)
    ensures PieceComponentSlots(EmitChild(e, k, at).value) == ComponentsInChild(e, k)
    decreases e, 0, k
  {
    match e.children[k]
    case ChildElement(child) =>
      ElementCounts(child, at);
    case ExpressionContainer(x) =>
      var s := Slot(at, Expression(x.handle));
      assert [s][..0] == [];
      assert ComponentSlots([s]) == 0;
    case _ =>
  }


  /** One pair per visited component plus the root's own frame
      (native elements own none), and one component slot per visited
      component. */
  lemma WalkCounts(root: JsxElement)
    requires Walk(root).Ok?
    ensures |Walk(root).value.templates| == |Walk(root).value.slotLists|
              == ComponentsIn(root) + (if root.name.Identifier? then 1 else 0)
    ensures ComponentSlotsIn(Walk(root).value.slotLists) == ComponentsIn(root)
  {
    if root.name.Identifier? {
      ElementCounts(root, 0);
      ElementSound(root, 0);
      var p := EmitElement(root, 0).value;
      ComponentSlotsInAppend(p.slotLists, [p.slots]);
      assert [p.slots] == [] + [p.slots];
      ComponentSlotsInAppend([], [p.slots]);
    }
  }

  // ---------------------------------------------------------------------
  // When the walk fails
  // ---------------------------------------------------------------------

  /** The visited part of the tree holds a spread child or an empty `{}`. */
  predicate Unsupported(e: JsxElement)
    decreases e, 1, 0
  {
    e.name.Identifier? && UnsupportedChildren(e, |e.children|)
  }

  predicate UnsupportedChildren(e: JsxElement, k: nat)
    requires k <= |e.children|
    decreases e, 0, k
  {
    k > 0 && (UnsupportedChildren(e, k - 1) || UnsupportedChild(e, k - 1))
  }

  /** The `k`-th child of `e` is one the walker rejects. */
  predicate UnsupportedChild(e: JsxElement, k: nat)
    requires k < |e.children|
    decreases e, 0, k
  {
    match e.children[k]
    case ChildElement(child) => Unsupported(child)
    case ExpressionContainer(x) => x.EmptyExpression?
    case SpreadChild(_) => true
    case _ => false
  }


  lemma {:induction false} ElementFails(e: JsxElement, base: nat)
    ensures EmitElement(e, base).Err? <==> Unsupported(e)
    decreases e, 1, 0
  {
    match e.name
    case NonIdentifier =>
    case Identifier(name) =>
      if IsComponentName(name) {
        ChildrenFail(e, |e.children|, 0);
      } else {
        ChildrenFail(e, |e.children|, base + 3);
      }
  }

  lemma {:induction false} ChildrenFail(e: JsxElement, k: nat, base: nat)
    requires k <= |e.children|
    ensures EmitChildren(e, k, base).Err? <==> UnsupportedChildren(e, k)
    decreases e, 0, k
  {
    if k > 0 {
      ChildrenFail(e, k - 1, base);
      if EmitChildren(e, k - 1, base).Ok? {
        var prev := EmitChildren(e, k - 1, base).value;
        ChildFails(e, k - 1, base + |prev.atoms|);
      }
    }
  }

  lemma {:induction false} ChildFails(e: JsxElement, k: nat, at: nat)
    requires k < |e.children|
    ensures EmitChild(e, k, at).Err? <==> UnsupportedChild(e, k)
    decreases e, 0, k
  {
    match e.children[k]
    case ChildElement(child) => ElementFails(child, at);
    case _ =>
  }


  /** The walk fails exactly when the root is a component, or the visited
      tree holds a spread child or an empty expression container. */
  lemma WalkFails(root: JsxElement)
    ensures Walk(root).Err? <==>
              (root.name.Identifier? && IsComponentName(root.name.ident)) || Unsupported(root)
  {
    ElementFails(root, 0);
  }

  /** The frames are closed innermost first: a native root's own frame is the
      last pair, opening with its tag and ending with its closing tag. */
  lemma WalkRootFrameLast(root: JsxElement)
    requires root.name.Identifier? && !IsComponentName(root.name.ident)
    requires Walk(root).Ok?
    ensures var f := Walk(root).value;
            var t := f.templates[|f.templates| - 1];
            && |f.templates| > 0 && |t| >= 6
            && t[..3] == OpenTag(root.name.ident)
            && t[|t| - 3..] == CloseTag(root.name.ident)
            && f.slotLists[|f.slotLists| - 1] == EmitElement(root, 0).value.slots
  {
  }

  /** A component's own pair is closed after the pairs of the components
      nested in it, and it leaves exactly one slot, at the insertion point,
      in the enclosing frame. */
  lemma ComponentFrameLast(e: JsxElement, base: nat)
    requires e.name.Identifier? && IsComponentName(e.name.ident)
    requires EmitElement(e, base).Ok?
    ensures var p := EmitElement(e, base).value;
            var inner := EmitChildren(e, |e.children|, 0).value;
            && p.atoms == [] && p.slots == [Slot(base, Component(e))]
            && |p.templates| == ComponentsIn(e) == ComponentsInChildren(e, |e.children|) + 1
            && p.templates[|p.templates| - 1] == inner.atoms
            && p.slotLists[|p.slotLists| - 1] == inner.slots
  {
    ElementCounts(e, base);
  }
}
