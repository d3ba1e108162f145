/** Worked inputs: the forest each walk produces, and the line the playback
    writes for it. Tags are three atoms each ("<", name, ">"), so a slot
    recorded right after an opening tag has index 3. */
module Scenarios {
  import opened Jsx
  import opened Reconstruct

  function Elem(name: string, children: seq<JsxChild>): JsxElement
  {
    JsxElement(Identifier(name), children)
  }

  const DivShell: Template := ["<", "div", ">", "</", "div", ">"]

  // ---------------------------------------------------------------------
  // Steps of the walk, one definition unfolding each
  // ---------------------------------------------------------------------

  lemma Native(name: string)
    requires name == "div" || name == "span"
    ensures !IsComponentName(name)
  {
    if name == "div" {
      assert Lowercase("div") == "div";
    } else {
      assert Lowercase("span") == "span";
    }
  }

  lemma TestIsComponent()
    ensures IsComponentName("Test")
  {
    assert Lowercase("Test")[0] == 't';
  }

  lemma ThenNothing(p: Piece)
    ensures Then(NoPiece, p) == p
  {
    assert [] + p.atoms == p.atoms && [] + p.slots == p.slots;
    assert [] + p.templates == p.templates && [] + p.slotLists == p.slotLists;
  }

  lemma ThenFlat(a1: seq<string>, s1: seq<Slot>, a2: seq<string>, s2: seq<Slot>)
    ensures Then(Piece(a1, s1, [], []), Piece(a2, s2, [], [])) == Piece(a1 + a2, s1 + s2, [], [])
  {
    var none: seq<Template> := [];
    var noLists: seq<seq<Slot>> := [];
    assert none + none == none && noLists + noLists == noLists;
  }

  lemma TextStep(e: JsxElement, k: nat, base: nat, prev: Piece, v: string)
    requires k < |e.children| && e.children[k] == Text(v) && EmitChildren(e, k, base) == Ok(prev)
    ensures EmitChildren(e, k + 1, base) == Ok(Then(prev, Piece([v], [], [], [])))
  {
  }

  lemma ExpressionStep(e: JsxElement, k: nat, base: nat, prev: Piece, x: ExprHandle)
    requires k < |e.children| && e.children[k] == ExpressionContainer(Expr(x))
    requires EmitChildren(e, k, base) == Ok(prev)
    ensures EmitChildren(e, k + 1, base) ==
              Ok(Then(prev, Piece([], [Slot(base + |prev.atoms|, Expression(x))], [], [])))
  {
  }

  lemma ElementStep(e: JsxElement, k: nat, base: nat, prev: Piece, child: JsxElement, q: Piece)
    requires k < |e.children| && e.children[k] == ChildElement(child)
    requires EmitChildren(e, k, base) == Ok(prev) && EmitElement(child, base + |prev.atoms|) == Ok(q)
    ensures EmitChildren(e, k + 1, base) == Ok(Then(prev, q))
  {
  }

  lemma NativeStep(e: JsxElement, base: nat, inner: Piece)
    requires e.name.Identifier? && !IsComponentName(e.name.ident)
    requires EmitChildren(e, |e.children|, base + 3) == Ok(inner)
    ensures EmitElement(e, base) ==
              Ok(Piece(OpenTag(e.name.ident) + inner.atoms + CloseTag(e.name.ident),
                       inner.slots, inner.templates, inner.slotLists))
  {
  }

  lemma ComponentStep(e: JsxElement, base: nat, inner: Piece)
    requires e.name.Identifier? && IsComponentName(e.name.ident)
    requires EmitChildren(e, |e.children|, 0) == Ok(inner)
    ensures EmitElement(e, base) ==
              Ok(Piece([], [Slot(base, Component(e))], inner.templates + [inner.atoms], inner.slotLists + [inner.slots]))
  {
  }

  lemma WrapNone(name: string)
    ensures OpenTag(name) + [] + CloseTag(name) == ["<", name, ">", "</", name, ">"]
  {
  }

  lemma WrapOne(name: string, a: string)
    ensures OpenTag(name) + [a] + CloseTag(name) == ["<", name, ">", a, "</", name, ">"]
  {
  }

  lemma WrapTwo(name: string, a: string, b: string)
    ensures OpenTag(name) + [a, b] + CloseTag(name) == ["<", name, ">", a, b, "</", name, ">"]
  {
  }

  lemma RootStep(root: JsxElement, p: Piece)
    requires root.name.Identifier? && !IsComponentName(root.name.ident)
    requires EmitElement(root, 0) == Ok(p)
    ensures Walk(root) == Ok(Forest(p.templates + [p.atoms], p.slotLists + [p.slots]))
  {
  }

  /** A native element whose only child is a component: the component's
      pairs are closed first, then the element's own, which holds the
      component's slot right after the opening tag. */
  lemma OnlyComponentChild(name: string, c: JsxElement, inner: Piece)
    requires !IsComponentName(name)
    requires c.name.Identifier? && IsComponentName(c.name.ident)
    requires EmitChildren(c, |c.children|, 0) == Ok(inner)
    ensures Walk(JsxElement(Identifier(name), [ChildElement(c)])) ==
              Ok(Forest(inner.templates + [inner.atoms, ["<", name, ">", "</", name, ">"]],
                        inner.slotLists + [inner.slots, [Slot(3, Component(c))]]))
  {
    var e := JsxElement(Identifier(name), [ChildElement(c)]);
    var ss := [Slot(3, Component(c))];
    var p := Piece([], ss, inner.templates + [inner.atoms], inner.slotLists + [inner.slots]);
    ComponentStep(c, 3, inner);
    ElementStep(e, 0, 3, NoPiece, c, p);
    ThenNothing(p);
    NativeStep(e, 0, p);
    WrapNone(name);
    var shell := ["<", name, ">", "</", name, ">"];
    RootStep(e, Piece(shell, ss, p.templates, p.slotLists));
    assert p.templates + [shell] == inner.templates + [inner.atoms, shell];
    assert p.slotLists + [ss] == inner.slotLists + [inner.slots, ss];
  }

  // ---------------------------------------------------------------------
  // Steps of the playback
  // ---------------------------------------------------------------------

  lemma Concat3(a: string, b: string, c: string)
    ensures Concat([a, b, c]) == a + b + c
  {
    assert [a][..0] == [] && "" + a == a;
    assert Concat([a]) == a;
    assert [a, b][..1] == [a];
    assert Concat([a, b]) == a + b;
    assert [a, b, c][..2] == [a, b];
  }

  lemma Concat4(a: string, b: string, c: string, d: string)
    ensures Concat([a, b, c, d]) == a + b + c + d
  {
    assert [a, b, c, d][..3] == [a, b, c];
    Concat3(a, b, c);
  }

  // ---------------------------------------------------------------------
  // The scenarios
  // ---------------------------------------------------------------------

  /** `<span>Hello</span>`: one template, no slots. */
  lemma NativeTextOnly()
    ensures Walk(Elem("span", [Text("Hello")])) ==
              Ok(Forest([["<", "span", ">", "Hello", "</", "span", ">"]], [[]]))
  {
    var e := Elem("span", [Text("Hello")]);
    var t := ["<", "span", ">", "Hello", "</", "span", ">"];
    var noSlots: seq<Slot> := [];
    Native("span");
    TextStep(e, 0, 3, NoPiece, "Hello");
    ThenNothing(Piece(["Hello"], [], [], []));
    NativeStep(e, 0, Piece(["Hello"], [], [], []));
    WrapOne("span", "Hello");
    RootStep(e, Piece(t, [], [], []));
    assert [] + [t] == [t] && [] + [noSlots] == [noSlots];
  }

  /** `<div>Hello, {X}!</div>`: the expression slot points past the text
      before it. */
  lemma ExpressionSlot(x: ExprHandle)
    ensures Walk(Elem("div", [Text("Hello, "), ExpressionContainer(Expr(x)), Text("!")])) ==
              Ok(Forest([["<", "div", ">", "Hello, ", "!", "</", "div", ">"]], [[Slot(4, Expression(x))]]))
  {
    var e := Elem("div", [Text("Hello, "), ExpressionContainer(Expr(x)), Text("!")]);
    var t := ["<", "div", ">", "Hello, ", "!", "</", "div", ">"];
    var ss := [Slot(4, Expression(x))];
    Native("div");
    TextStep(e, 0, 3, NoPiece, "Hello, ");
    ThenNothing(Piece(["Hello, "], [], [], []));
    ExpressionStep(e, 1, 3, Piece(["Hello, "], [], [], []), x);
    ThenFlat(["Hello, "], [], [], ss);
    assert ["Hello, "] + [] == ["Hello, "] && [] + ss == ss;
    TextStep(e, 2, 3, Piece(["Hello, "], ss, [], []), "!");
    ThenFlat(["Hello, "], ss, ["!"], []);
    assert ss + [] == ss && ["Hello, "] + ["!"] == ["Hello, ", "!"];
    NativeStep(e, 0, Piece(["Hello, ", "!"], ss, [], []));
    WrapTwo("div", "Hello, ", "!");
    RootStep(e, Piece(t, ss, [], []));
    assert [] + [t] == [t] && [] + [ss] == [ss];
  }

  /** Playback of that pair writes `{}` between the two texts. */
  lemma ExpressionSlotRender(x: ExprHandle)
    ensures Render(["<", "div", ">", "Hello, ", "!", "</", "div", ">"], [Slot(4, Expression(x))]) ==
              "<div>Hello, {}!</div>"
  {
    var t := ["<", "div", ">", "Hello, ", "!", "</", "div", ">"];
    RenderOneSlot(t, [Slot(4, Expression(x))]);
    assert t[..4] == ["<", "div", ">", "Hello, "] && t[4..] == ["!", "</", "div", ">"];
    Concat4("<", "div", ">", "Hello, ");
    Concat4("!", "</", "div", ">");
  }

  /** `<div><Test><div>Test</div></Test></div>`: the component's template is
      closed first, and the outer template holds its slot after the opening
      tag. */
  lemma NestedComponent(test: JsxElement)
    requires test == Elem("Test", [ChildElement(Elem("div", [Text("Test")]))])
    ensures Walk(Elem("div", [ChildElement(test)])) ==
              Ok(Forest([["<", "div", ">", "Test", "</", "div", ">"], DivShell],
                        [[], [Slot(3, Component(test))]]))
  {
    var leaf := test.children[0].element;
    var t1 := ["<", "div", ">", "Test", "</", "div", ">"];
    Native("div");
    TestIsComponent();
    TextStep(leaf, 0, 3, NoPiece, "Test");
    ThenNothing(Piece(["Test"], [], [], []));
    NativeStep(leaf, 0, Piece(["Test"], [], [], []));
    WrapOne("div", "Test");
    ElementStep(test, 0, 0, NoPiece, leaf, Piece(t1, [], [], []));
    ThenNothing(Piece(t1, [], [], []));
    OnlyComponentChild("div", test, Piece(t1, [], [], []));
    var noLists: seq<seq<Slot>> := [];
    var none: seq<Template> := [];
    assert none + [t1, DivShell] == [t1, DivShell];
    assert noLists + [[], [Slot(3, Component(test))]] == [[], [Slot(3, Component(test))]];
  }


  /** The empty `<div></div>` shell with the first slot written after its
      opening tag. */
  lemma RenderShell(ss: seq<Slot>, hole: string)
    requires |ss| > 0 && ss[0].index == 3 && (|ss| == 1 || ss[1].index == 3)
    requires Placeholder(ss[0].kind) == hole
    ensures Render(DivShell, ss) == "<div>" + hole + "</div>"
  {
    RenderOneSlot(DivShell, ss);
    assert DivShell[..3] == ["<", "div", ">"] && DivShell[3..] == ["</", "div", ">"];
    Concat3("<", "div", ">");
    Concat3("</", "div", ">");
  }

  /** Playback writes the component's tag where it was recorded. */
  lemma NestedComponentRender(test: JsxElement)
    requires test == Elem("Test", [ChildElement(Elem("div", [Text("Test")]))])
    ensures Render(DivShell, [Slot(3, Component(test))]) == "<div><Test></div>"
  {
    RenderShell([Slot(3, Component(test))], "<Test>");
  }

  /** `<div><Test></Test></div>`: a component with no children still closes
      an empty pair. */
  lemma EmptyComponent(test: JsxElement)
    requires test == Elem("Test", [])
    ensures Walk(Elem("div", [ChildElement(test)])) ==
              Ok(Forest([[], DivShell], [[], [Slot(3, Component(test))]]))
  {
    Native("div");
    TestIsComponent();
    OnlyComponentChild("div", test, NoPiece);
    var noLists: seq<seq<Slot>> := [];
    var none: seq<Template> := [];
    assert none + [[], DivShell] == [[], DivShell];
    assert noLists + [[], [Slot(3, Component(test))]] == [[], [Slot(3, Component(test))]];
  }


  /** A spread child, or a component at the root, is not implemented; an
      empty expression container fails its unwrap. */
  lemma Unsupported(x: ExprHandle)
    ensures Walk(Elem("div", [SpreadChild(x)])) == Err(NotImplemented)
    ensures Walk(Elem("Test", [])) == Err(NotImplemented)
    ensures Walk(Elem("div", [Text("a"), ExpressionContainer(EmptyExpression)])) == Err(UnwrapOnEmpty)
  {
    Native("div");
    TestIsComponent();
    var spread := Elem("div", [SpreadChild(x)]);
    assert EmitChildren(spread, 1, 3) == Err(NotImplemented);
    var e := Elem("div", [Text("a"), ExpressionContainer(EmptyExpression)]);
    TextStep(e, 0, 3, NoPiece, "a");
    assert EmitChildren(e, 2, 3) == Err(UnwrapOnEmpty);
  }

  /** `<div>{a}{b}</div>`: both slots share index 3. */
  lemma AdjacentExpressions(a: ExprHandle, b: ExprHandle)
    ensures Walk(Elem("div", [ExpressionContainer(Expr(a)), ExpressionContainer(Expr(b))])) ==
              Ok(Forest([DivShell], [[Slot(3, Expression(a)), Slot(3, Expression(b))]]))
  {
    var e := Elem("div", [ExpressionContainer(Expr(a)), ExpressionContainer(Expr(b))]);
    var ss := [Slot(3, Expression(a)), Slot(3, Expression(b))];
    Native("div");
    ExpressionStep(e, 0, 3, NoPiece, a);
    ThenNothing(Piece([], [ss[0]], [], []));
    ExpressionStep(e, 1, 3, Piece([], [ss[0]], [], []), b);
    ThenFlat([], [ss[0]], [], [ss[1]]);
    assert [ss[0]] + [ss[1]] == ss;
    NativeStep(e, 0, Piece([], ss, [], []));
    WrapNone("div");
    RootStep(e, Piece(DivShell, ss, [], []));
    assert [] + [DivShell] == [DivShell] && [] + [ss] == [ss];
  }

  /** ... so playback writes only the first placeholder. */
  lemma AdjacentExpressionsRender(a: ExprHandle, b: ExprHandle)
    ensures Render(DivShell, [Slot(3, Expression(a)), Slot(3, Expression(b))]) == "<div>{}</div>"
  {
    RenderShell([Slot(3, Expression(a)), Slot(3, Expression(b))], "{}");
  }
}
