/** Static/dynamic decomposition of a JSX element tree (crates/ui0/src/jsx.rs).

    Every component-rooted subtree becomes a template (a sequence of literal
    atoms) and an aligned slot list (insertion points for nested components
    and embedded expressions). Native tags are inlined as atoms into the
    enclosing template.

    The module holds the tree and slot types, the tag classifier, a
    compositional specification of the walk (EmitElement, EmitChildren, Walk)
    and the class Element, whose methods do the walk the way `Element` in
    crates/ui0/src/jsx.rs does, with an explicit stack of open templates and
    one of open slot lists, and are proved to agree with the specification. */
module Jsx {

  // ---------------------------------------------------------------------
  // The input tree
  // ---------------------------------------------------------------------

  /** An opaque handle for an expression of the surrounding program. */
  datatype ExprHandle = ExprHandle(id: nat)

  /** The content of a `{...}` container: `{}` (or a comment only) is empty. */
  datatype JsxExpression = EmptyExpression | Expr(handle: ExprHandle)

  /** Only plain identifiers are processed; member expressions and
      namespaced names are all `NonIdentifier`. */
  datatype ElementName = Identifier(ident: string) | NonIdentifier

  datatype JsxElement = JsxElement(name: ElementName, children: seq<JsxChild>)

  datatype JsxChild =
    | ChildElement(element: JsxElement)
    | Text(value: string)
    | ExpressionContainer(expression: JsxExpression)
    | SpreadChild(spread: ExprHandle)
    | Fragment

  // ---------------------------------------------------------------------
  // The output: templates and slots
  // ---------------------------------------------------------------------

  datatype SlotKind =
    | Component(element: JsxElement)
    | Expression(handle: ExprHandle)
    | Spread(handle: ExprHandle)

  /** `index` is the number of atoms the owning template held when the slot
      was recorded. */
  datatype Slot = Slot(index: nat, kind: SlotKind)

  type Template = seq<string>

  /** A TemplateId is a position in both sequences. */
  datatype Forest = Forest(templates: seq<Template>, slotLists: seq<seq<Slot>>)

  /** The two panics the walk can reach: `todo!()` (a spread child, a
      component at the root) and `unwrap()` of an empty `{}` container. */
  datatype Panic = NotImplemented | UnwrapOnEmpty

  datatype Result<T> = Ok(value: T) | Err(panic: Panic)

  datatype Outcome = Pass | Fail(panic: Panic)

  function Status<T>(r: Result<T>): Outcome
  {
    match r
    case Ok(_) => Pass
    case Err(p) => Fail(p)
  }

  function Last<T>(s: seq<T>): T
    requires |s| > 0
  {
    s[|s| - 1]
  }

  function ReplaceLast<T>(s: seq<T>, x: T): (r: seq<T>)
    requires |s| > 0
    ensures |r| == |s| && Last(r) == x && r[..|r| - 1] == s[..|s| - 1]
  {
    s[..|s| - 1] + [x]
  }

  lemma ReplaceLastTwice<T>(s: seq<T>, x: T, y: T)
    requires |s| > 0
    ensures ReplaceLast(ReplaceLast(s, x), y) == ReplaceLast(s, y)
  {
  }

  lemma ReplaceLastSame<T>(s: seq<T>)
    requires |s| > 0
    ensures ReplaceLast(s, Last(s)) == s
  {
    assert s == s[..|s| - 1] + [Last(s)];
  }

  // ---------------------------------------------------------------------
  // Tag classification (ASCII lower-casing)
  // ---------------------------------------------------------------------

  predicate IsAsciiUpper(c: char)
  {
    'A' <= c <= 'Z'
  }

  function ToLowerAscii(c: char): char
  {
    if IsAsciiUpper(c) then (c as int + 32) as char else c
  }

  function Lowercase(s: string): string
  {
    if s == [] then [] else [ToLowerAscii(s[0])] + Lowercase(s[1..])
  }

  /** A tag names a component when it differs from its lower-cased form,
      that is, when it has an upper-case letter. */
  predicate IsComponentName(name: string): (r: bool)
    ensures r <==> exists i :: 0 <= i < |name| && IsAsciiUpper(name[i])
  {
    ComponentNameHasUpper(name);
    name != Lowercase(name)
  }

  /** Lower-casing changes a name exactly when it has an upper-case letter;
      in particular a name without one is native. */
  lemma {:induction false} ComponentNameHasUpper(name: string)
    ensures name != Lowercase(name) <==> exists i :: 0 <= i < |name| && IsAsciiUpper(name[i])
  {
    if name != [] {
      var rest := name[1..];
      ComponentNameHasUpper(rest);
      var low := Lowercase(name);
      assert low == [ToLowerAscii(name[0])] + Lowercase(rest);
      assert low[0] == ToLowerAscii(name[0]) && low[1..] == Lowercase(rest);
      assert name == [name[0]] + rest;
      if IsAsciiUpper(name[0]) {
        assert low[0] != name[0];
      } else {
        assert low[0] == name[0];
        if exists i :: 0 <= i < |rest| && IsAsciiUpper(rest[i]) {
          var i :| 0 <= i < |rest| && IsAsciiUpper(rest[i]);
          assert name[i + 1] == rest[i];
        }
        if exists i :: 0 <= i < |name| && IsAsciiUpper(name[i]) {
          var i :| 0 <= i < |name| && IsAsciiUpper(name[i]);
          assert i > 0 && rest[i - 1] == name[i];
        }
      }
    }
  }

  // ---------------------------------------------------------------------
  // Compositional specification of the walk
  // ---------------------------------------------------------------------

  /** What walking a node contributes: atoms and slots appended to the frame
      that is open when the walk starts, and the (template, slot list) pairs
      closed meanwhile, in closing order. */
  datatype Piece = Piece(atoms: seq<string>, slots: seq<Slot>,
                         templates: seq<Template>, slotLists: seq<seq<Slot>>)

  const NoPiece := Piece([], [], [], [])

  function Then(p: Piece, q: Piece): Piece
  {
    Piece(p.atoms + q.atoms, p.slots + q.slots, p.templates + q.templates, p.slotLists + q.slotLists)
  }

  function OpenTag(name: string): seq<string>
  {
    ["<", name, ">"]
  }

  function CloseTag(name: string): seq<string>
  {
    ["</", name, ">"]
  }

  /** The piece an element contributes when the open frame already holds
      `base` atoms. A component records one slot at `base` in that frame and
      closes a pair of its own after the pairs of its descendants; a native
      element wraps its children's atoms in its tags. */
  function EmitElement(e: JsxElement, base: nat): (r: Result<Piece>)
    ensures r.Ok? ==> |r.value.templates| == |r.value.slotLists|
    decreases e, 1, 0
  {
    match e.name
    case NonIdentifier => Ok(NoPiece)
    case Identifier(name) =>
      if IsComponentName(name) then
        match EmitChildren(e, |e.children|, 0)
        case Err(p) => Err(p)
        case Ok(inner) =>
          Ok(Piece([], [Slot(base, Component(e))],
                   inner.templates + [inner.atoms], inner.slotLists + [inner.slots]))
      else
        match EmitChildren(e, |e.children|, base + 3)
        case Err(p) => Err(p)
        case Ok(inner) =>
          Ok(Piece(OpenTag(name) + inner.atoms + CloseTag(name), inner.slots,
                   inner.templates, inner.slotLists))
  }

  /** The piece the first `k` children of `e` contribute, in document order. */
  function EmitChildren(e: JsxElement, k: nat, base: nat): (r: Result<Piece>)
    requires k <= |e.children|
    ensures r.Ok? ==> |r.value.templates| == |r.value.slotLists|
    decreases e, 0, k
  {
    if k == 0 then Ok(NoPiece)
    else
      match EmitChildren(e, k - 1, base)
      case Err(p) => Err(p)
      case Ok(prev) =>
        match EmitChild(e, k - 1, base + |prev.atoms|)
        case Err(p) => Err(p)
        case Ok(q) => Ok(Then(prev, q))
  }

  /** The piece child `k` of `e` contributes when the open template holds
      `at` atoms: an element its own piece, a text its atom, an expression
      container a slot at `at`; a spread child is not implemented and a
      fragment is skipped. */
  function EmitChild(e: JsxElement, k: nat, at: nat): (r: Result<Piece>)
    requires k < |e.children|
    ensures r.Ok? ==> |r.value.templates| == |r.value.slotLists|
    decreases e, 0, k
  {
    match e.children[k]
    case ChildElement(child) => EmitElement(child, at)
    case Text(v) => Ok(Piece([v], [], [], []))
    case ExpressionContainer(x) =>
      if x.EmptyExpression? then Err(UnwrapOnEmpty)
      else Ok(Piece([], [Slot(at, Expression(x.handle))], [], []))
    case SpreadChild(_) => Err(NotImplemented)
    case Fragment => Ok(NoPiece)
  }


  /** The forest of a whole walk: a component root is not supported, a root
      that is not an identifier produces nothing, and a native root's own
      frame is closed last. */
  function Walk(root: JsxElement): (r: Result<Forest>)
    ensures r.Ok? ==> |r.value.templates| == |r.value.slotLists|
    ensures r.Ok? && root.name.Identifier? ==> |r.value.templates| > 0
    ensures r.Err? ==> root.name.Identifier?
  {
    match root.name
    case NonIdentifier => Ok(Forest([], []))
    case Identifier(name) =>
      if IsComponentName(name) then Err(NotImplemented)
      else
        match EmitElement(root, 0)
        case Err(p) => Err(p)
        case Ok(p) => Ok(Forest(p.templates + [p.atoms], p.slotLists + [p.slots]))
  }

  /** Once a prefix of the children fails, the whole list fails the same way. */
  lemma {:induction false} ErrPersists(e: JsxElement, k: nat, m: nat, base: nat)
    requires k <= m <= |e.children|
    requires EmitChildren(e, k, base).Err?
    ensures EmitChildren(e, m, base) == EmitChildren(e, k, base)
    decreases m
  {
    if k < m {
      ErrPersists(e, k, m - 1, base);
    }
  }

  // ---------------------------------------------------------------------
  // Walker state
  // ---------------------------------------------------------------------

  /** The four fields of the walker, as a value. */
  datatype Walker = Walker(templatesStack: seq<Template>, slotsStack: seq<seq<Slot>>,
                           templates: seq<Template>, slots: seq<seq<Slot>>)

  predicate Balanced(w: Walker)
  {
    |w.templatesStack| == |w.slotsStack|
  }

  /** The state after a piece is appended to the top frames and its closed
      pairs to the outputs. */
  function Absorb(w: Walker, p: Piece): Walker
    requires |w.templatesStack| > 0 && |w.slotsStack| > 0
  {
    Walker(ReplaceLast(w.templatesStack, Last(w.templatesStack) + p.atoms),
           ReplaceLast(w.slotsStack, Last(w.slotsStack) + p.slots),
           w.templates + p.templates, w.slots + p.slotLists)
  }

  lemma AbsorbThen(w: Walker, p: Piece, q: Piece)
    requires |w.templatesStack| > 0 && |w.slotsStack| > 0
    ensures Absorb(Absorb(w, p), q) == Absorb(w, Then(p, q))
  {
    var t, s := Last(w.templatesStack), Last(w.slotsStack);
    ReplaceLastTwice(w.templatesStack, t + p.atoms, t + p.atoms + q.atoms);
    ReplaceLastTwice(w.slotsStack, s + p.slots, s + p.slots + q.slots);
    assert t + p.atoms + q.atoms == t + (p.atoms + q.atoms);
    assert s + p.slots + q.slots == s + (p.slots + q.slots);
    assert w.templates + p.templates + q.templates == w.templates + (p.templates + q.templates);
    assert w.slots + p.slotLists + q.slotLists == w.slots + (p.slotLists + q.slotLists);
  }

  lemma AbsorbNothing(w: Walker)
    requires |w.templatesStack| > 0 && |w.slotsStack| > 0
    ensures Absorb(w, NoPiece) == w
  {
    assert Last(w.templatesStack) + [] == Last(w.templatesStack);
    assert Last(w.slotsStack) + [] == Last(w.slotsStack);
    ReplaceLastSame(w.templatesStack);
    ReplaceLastSame(w.slotsStack);
  }

  lemma AbsorbAtoms(w: Walker, atoms: seq<string>)
    requires |w.templatesStack| > 0 && |w.slotsStack| > 0
    ensures Absorb(w, Piece(atoms, [], [], [])) ==
            w.(templatesStack := ReplaceLast(w.templatesStack, Last(w.templatesStack) + atoms))
  {
    assert Last(w.slotsStack) + [] == Last(w.slotsStack);
    ReplaceLastSame(w.slotsStack);
  }

  lemma AbsorbSlots(w: Walker, slots: seq<Slot>)
    requires |w.templatesStack| > 0 && |w.slotsStack| > 0
    ensures Absorb(w, Piece([], slots, [], [])) ==
            w.(slotsStack := ReplaceLast(w.slotsStack, Last(w.slotsStack) + slots))
  {
    assert Last(w.templatesStack) + [] == Last(w.templatesStack);
    ReplaceLastSame(w.templatesStack);
  }

  /** Opening an empty frame pair on `w`, absorbing `inner` into it and
      popping it to the outputs leaves `w`'s stacks as they were. */
  lemma CloseFrame(w: Walker, inner: Piece)
    ensures var s := Absorb(w.(templatesStack := w.templatesStack + [[]], slotsStack := w.slotsStack + [[]]), inner);
            Walker(s.templatesStack[..|s.templatesStack| - 1], s.slotsStack[..|s.slotsStack| - 1],
                   s.templates + [Last(s.templatesStack)], s.slots + [Last(s.slotsStack)])
            == w.(templates := w.templates + (inner.templates + [inner.atoms]),
                  slots := w.slots + (inner.slotLists + [inner.slots]))
  {
    var s := Absorb(w.(templatesStack := w.templatesStack + [[]], slotsStack := w.slotsStack + [[]]), inner);
    assert [] + inner.atoms == inner.atoms && [] + inner.slots == inner.slots;
    assert (w.templatesStack + [[]])[..|w.templatesStack|] == w.templatesStack;
    assert (w.slotsStack + [[]])[..|w.slotsStack|] == w.slotsStack;
    assert s.templates + [inner.atoms] == w.templates + (inner.templates + [inner.atoms]);
    assert s.slots + [inner.slots] == w.slots + (inner.slotLists + [inner.slots]);
  }

  /** The state processing `e` leaves behind, from a balanced state `w`.
      With no open frame, a native element opens one and a component
      cannot be recorded. */
  function Opened(w: Walker, e: JsxElement): (r: Result<Walker>)
    requires Balanced(w)
    ensures r.Ok? ==> Balanced(r.value)
    ensures r.Ok? && |w.templatesStack| > 0 ==> |r.value.templatesStack| == |w.templatesStack|
    ensures r.Ok? && |w.templatesStack| == 0 ==>
              |r.value.templatesStack| == (if e.name.Identifier? then 1 else 0)
    ensures r.Ok? ==> |r.value.templates| - |w.templates| == |r.value.slots| - |w.slots|
  {
    if |w.templatesStack| > 0 then
      match EmitElement(e, |Last(w.templatesStack)|)
      case Err(p) => Err(p)
      case Ok(p) => Ok(Absorb(w, p))
    else
      match e.name
      case NonIdentifier => Ok(w)
      case Identifier(name) =>
        if IsComponentName(name) then Err(NotImplemented)
        else
          match EmitElement(e, 0)
          case Err(p) => Err(p)
          case Ok(p) => Ok(Absorb(Walker([[]], [[]], w.templates, w.slots), p))
  }

  /** Opening the root from the empty state and popping whatever frame is
      left gives the whole walk. */
  lemma WalkFromEmpty(e: JsxElement)
    ensures var o := Opened(Walker([], [], [], []), e);
            && Status(o) == Status(Walk(e))
            && (o.Ok? ==>
                  |o.value.templatesStack| <= 1 && |o.value.slotsStack| <= 1 &&
                  Walk(e).value ==
                    Forest(o.value.templates + o.value.templatesStack, o.value.slots + o.value.slotsStack))
  {
    if e.name.Identifier? && !IsComponentName(e.name.ident) && EmitElement(e, 0).Ok? {
      var p := EmitElement(e, 0).value;
      assert [] + p.atoms == p.atoms && [] + p.slots == p.slots;
    }
  }

  /** Appending the closing tag after the opening tag and the children gives
      the native element's whole piece. */
  lemma NativeClose(w: Walker, name: string, inner: Piece)
    requires |w.templatesStack| > 0 && |w.slotsStack| > 0
    ensures var mid := Absorb(w, Then(Piece(OpenTag(name), [], [], []), inner));
            mid.(templatesStack := ReplaceLast(mid.templatesStack, Last(mid.templatesStack) + CloseTag(name)))
            == Absorb(w, Piece(OpenTag(name) + inner.atoms + CloseTag(name), inner.slots, inner.templates, inner.slotLists))
  {
    var open := Piece(OpenTag(name), [], [], []);
    var mid := Absorb(w, Then(open, inner));
    AbsorbAtoms(mid, CloseTag(name));
    AbsorbThen(w, Then(open, inner), Piece(CloseTag(name), [], [], []));
    assert Then(Then(open, inner), Piece(CloseTag(name), [], [], [])) ==
           Piece(OpenTag(name) + inner.atoms + CloseTag(name), inner.slots, inner.templates, inner.slotLists);
  }

  lemma OpenedComponent(w: Walker, e: JsxElement)
    requires Balanced(w) && |w.templatesStack| > 0
    requires e.name.Identifier? && IsComponentName(e.name.ident)
    ensures var inner := EmitChildren(e, |e.children|, 0);
            Opened(w, e) ==
              if inner.Err? then Err(inner.panic)
              else Ok(Absorb(w, Piece([], [Slot(|Last(w.templatesStack)|, Component(e))],
                                      inner.value.templates + [inner.value.atoms],
                                      inner.value.slotLists + [inner.value.slots])))
  {
  }

  /** The walker with a frame pair open: itself, or a fresh pair on empty
      stacks. */
  function WithFrame(w: Walker): (r: Walker)
    requires Balanced(w)
    ensures Balanced(r) && |r.templatesStack| > 0
    ensures |w.templatesStack| > 0 ==> r == w
  {
    if |w.templatesStack| > 0 then w else Walker([[]], [[]], w.templates, w.slots)
  }

  lemma OpenedNative(w: Walker, e: JsxElement)
    requires Balanced(w)
    requires e.name.Identifier? && !IsComponentName(e.name.ident)
    ensures var start := WithFrame(w);
            var inner := EmitChildren(e, |e.children|, |Last(start.templatesStack)| + 3);
            Opened(w, e) ==
              if inner.Err? then Err(inner.panic)
              else Ok(Absorb(start, Piece(OpenTag(e.name.ident) + inner.value.atoms + CloseTag(e.name.ident),
                                          inner.value.slots, inner.value.templates, inner.value.slotLists)))
  {
  }

  // ---------------------------------------------------------------------
  // The walker
  // ---------------------------------------------------------------------

  class Element {
    var templatesStack: seq<Template>
    var slotsStack: seq<seq<Slot>>
    var templates: seq<Template>
    var slots: seq<seq<Slot>>

    /** The two stacks always have the same height. */
    ghost predicate Valid()
      reads this
    {
      |templatesStack| == |slotsStack|
    }

    function State(): Walker
      reads this
    {
      Walker(templatesStack, slotsStack, templates, slots)
    }

    constructor ()
      ensures Valid() && State() == Walker([], [], [], [])
    {
      templatesStack, slotsStack := [], [];
      templates, slots := [], [];
    }

    /** Walks `element` and closes whatever frame is still open. */
    static method FromJsxElement(element: JsxElement) returns (r: Result<Forest>)
      ensures r == Walk(element)
    {
      var result := new Element();
      var o := result.ProcessJsx(element);
      WalkFromEmpty(element);
      if o.Fail? {
        return Err(o.panic);
      }
      if |result.templatesStack| > 0 {
        var head := Last(result.templatesStack);
        assert result.templatesStack == [head];
        result.templatesStack := result.templatesStack[..|result.templatesStack| - 1];
        result.templates := result.templates + [head];
      }
      if |result.slotsStack| > 0 {
        var head := Last(result.slotsStack);
        assert result.slotsStack == [head];
        result.slotsStack := result.slotsStack[..|result.slotsStack| - 1];
        result.slots := result.slots + [head];
      }
      r := Ok(Forest(result.templates, result.slots));
    }

    method ProcessChildren(element: JsxElement) returns (r: Outcome)
      requires Valid() && |templatesStack| > 0
      modifies this
      decreases element, 1
      ensures Valid()
      ensures r.Pass? ==> |templatesStack| == |old(templatesStack)|
      ensures r == Status(EmitChildren(element, |element.children|, |Last(old(templatesStack))|))
      ensures r.Pass? ==>
        State() == Absorb(old(State()), EmitChildren(element, |element.children|, |Last(old(templatesStack))|).value)
    {
      ghost var w0 := State();
      ghost var base := |Last(templatesStack)|;
      AbsorbNothing(w0);
      for i := 0 to |element.children|
        invariant Valid() && |templatesStack| == |w0.templatesStack|
        invariant EmitChildren(element, i, base).Ok?
        invariant State() == Absorb(w0, EmitChildren(element, i, base).value)
      {
        ghost var prev := EmitChildren(element, i, base).value;
        ghost var at := base + |prev.atoms|;
        assert |Last(templatesStack)| == at;
        r := ProcessChild(element, i);
        if r.Fail? {
          ErrPersists(element, i + 1, |element.children|, base);
          return;
        }
        AbsorbThen(w0, prev, EmitChild(element, i, at).value);
      }
      r := Pass;
    }

    /** One turn of the loop in process_children. */
    method ProcessChild(element: JsxElement, k: nat) returns (r: Outcome)
      requires Valid() && |templatesStack| > 0 && k < |element.children|
      modifies this
      decreases element, 0, k
      ensures Valid() && (r.Pass? ==> |templatesStack| == |old(templatesStack)|)
      ensures r == Status(EmitChild(element, k, |Last(old(templatesStack))|))
      ensures r.Pass? ==> State() == Absorb(old(State()), EmitChild(element, k, |Last(old(templatesStack))|).value)
    {
      match element.children[k] {
        case ChildElement(child) =>
          r := ProcessJsx(child);
        case Text(v) =>
          PushText(v);
          r := Pass;
        case SpreadChild(_) =>
          r := Fail(NotImplemented);
        case ExpressionContainer(x) =>
          r := PushExpression(x);
        case Fragment =>
          // a fragment child is skipped together with its children
          AbsorbNothing(State());
          r := Pass;
      }
    }

    /** The text branch of process_children: the atom goes to the open
        template. */
    method PushText(v: string)
      requires Valid() && |templatesStack| > 0
      modifies this
      ensures Valid() && |templatesStack| == |old(templatesStack)|
      ensures State() == Absorb(old(State()), Piece([v], [], [], []))
    {
      AbsorbAtoms(State(), [v]);
      if |templatesStack| > 0 {
        templatesStack := ReplaceLast(templatesStack, Last(templatesStack) + [v]);
      } else {
        // the lazily created frame: no frame is ever missing here
        assert false;
      }
    }

    /** The expression branch of process_children: a slot at the current
        template length, or a failed unwrap for an empty container. */
    method PushExpression(x: JsxExpression) returns (r: Outcome)
      requires Valid() && |templatesStack| > 0
      modifies this
      ensures Valid() && |templatesStack| == |old(templatesStack)|
      ensures r == if x.EmptyExpression? then Fail(UnwrapOnEmpty) else Pass
      ensures r.Pass? ==>
        State() == Absorb(old(State()), Piece([], [Slot(|Last(old(templatesStack))|, Expression(x.handle))], [], []))
    {
      if |slotsStack| == 0 {
        assert false; // "Lost template"
      }
      if |templatesStack| == 0 {
        assert false; // "Lost template"
      }
      var index := |Last(templatesStack)|;
      if x.EmptyExpression? {
        return Fail(UnwrapOnEmpty);
      }
      AbsorbSlots(State(), [Slot(index, Expression(x.handle))]);
      slotsStack := ReplaceLast(slotsStack, Last(slotsStack) + [Slot(index, Expression(x.handle))]);
      r := Pass;
    }

    /** process_jsx: a component opens its own frame pair, a native element is
        inlined into the open frame, any other name is skipped. */
    method ProcessJsx(element: JsxElement) returns (r: Outcome)
      requires Valid()
      modifies this
      decreases element, 3
      ensures Valid()
      ensures r.Pass? && |old(templatesStack)| > 0 ==> |templatesStack| == |old(templatesStack)|
      ensures r == Status(Opened(old(State()), element))
      ensures r.Pass? ==> State() == Opened(old(State()), element).value
    {
      match element.name {
        case NonIdentifier =>
          r := Pass;
          if |templatesStack| > 0 {
            AbsorbNothing(State());
          }
        case Identifier(name) =>
          if IsComponentName(name) {
            r := ProcessComponent(element);
          } else {
            r := ProcessNative(element);
          }
      }
    }

    /** The component branch of process_jsx. */
    method ProcessComponent(element: JsxElement) returns (r: Outcome)
      requires Valid() && element.name.Identifier? && IsComponentName(element.name.ident)
      modifies this
      decreases element, 2
      ensures Valid()
      ensures r.Pass? ==> |templatesStack| == |old(templatesStack)|
      ensures r == Status(Opened(old(State()), element))
      ensures r.Pass? ==> State() == Opened(old(State()), element).value
    {
      ghost var w0 := State();
      if |slotsStack| == 0 {
        // top-level component
        return Fail(NotImplemented);
      }
      if |templatesStack| == 0 {
        assert false; // "Lost template"
      }
      var index := |Last(templatesStack)|;
      OpenedComponent(w0, element);
      AbsorbSlots(w0, [Slot(index, Component(element))]);
      slotsStack := ReplaceLast(slotsStack, Last(slotsStack) + [Slot(index, Component(element))]);
      ghost var w1 := State();
      templatesStack := templatesStack + [[]];
      slotsStack := slotsStack + [[]];
      r := ProcessChildren(element);
      if r.Fail? {
        return;
      }
      ghost var inner := EmitChildren(element, |element.children|, 0).value;
      CloseFrame(w1, inner);
      if |templatesStack| == 0 {
        assert false; // "Lost template"
      }
      var template := Last(templatesStack);
      templatesStack := templatesStack[..|templatesStack| - 1];
      templates := templates + [template];
      if |slotsStack| == 0 {
        assert false; // "Lost template"
      }
      var slotList := Last(slotsStack);
      slotsStack := slotsStack[..|slotsStack| - 1];
      slots := slots + [slotList];
      assert State() == Absorb(w0, Piece([], [Slot(index, Component(element))],
                                         inner.templates + [inner.atoms], inner.slotLists + [inner.slots]));
    }

    /** The native branch of process_jsx. */
    method ProcessNative(element: JsxElement) returns (r: Outcome)
      requires Valid() && element.name.Identifier? && !IsComponentName(element.name.ident)
      modifies this
      decreases element, 2
      ensures Valid()
      ensures r.Pass? && |old(templatesStack)| > 0 ==> |templatesStack| == |old(templatesStack)|
      ensures r == Status(Opened(old(State()), element))
      ensures r.Pass? ==> State() == Opened(old(State()), element).value
    {
      ghost var w0 := State();
      var name := element.name.ident;
      ghost var start := WithFrame(w0);
      ghost var open := Piece(OpenTag(name), [], [], []);
      OpenedNative(w0, element);
      PushOpenTag(name);
      r := ProcessChildren(element);
      if r.Fail? {
        return;
      }
      ghost var inner := EmitChildren(element, |element.children|, |Last(start.templatesStack)| + 3).value;
      AbsorbThen(start, open, inner);
      NativeClose(start, name, inner);
      PushCloseTag(name);
    }

    /** The opening tag goes to the open template, or starts one (with an
        empty slot list beside it) when there is none. */
    method PushOpenTag(name: string)
      requires Valid()
      modifies this
      ensures Valid() && |templatesStack| > 0
      ensures |old(templatesStack)| > 0 ==> |templatesStack| == |old(templatesStack)|
      ensures State() == Absorb(WithFrame(old(State())), Piece(OpenTag(name), [], [], []))
    {
      AbsorbAtoms(WithFrame(State()), OpenTag(name));
      if |templatesStack| > 0 {
        templatesStack := ReplaceLast(templatesStack, Last(templatesStack) + OpenTag(name));
      } else {
        templatesStack := templatesStack + [OpenTag(name)];
        assert [] + OpenTag(name) == OpenTag(name);
      }
      if |slotsStack| == 0 {
        slotsStack := slotsStack + [[]];
      }
    }

    /** The closing tag goes to the open template. */
    method PushCloseTag(name: string)
      requires Valid() && |templatesStack| > 0
      modifies this
      ensures Valid() && |templatesStack| == |old(templatesStack)|
      ensures State() == old(State()).(templatesStack :=
                ReplaceLast(old(templatesStack), Last(old(templatesStack)) + CloseTag(name)))
    {
      if |templatesStack| > 0 {
        templatesStack := ReplaceLast(templatesStack, Last(templatesStack) + CloseTag(name));
      } else {
        assert false; // "Lost a template"
      }
    }
  }
}
