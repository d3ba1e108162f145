/** The diagnostic playback of one (template, slot list) pair
    (crates/ui0/src/lib.rs, lines 82-104): the atoms are concatenated in
    order and a placeholder is written right after atom `i` when the pending
    slot's index is `i + 1`.

    Render states the result without the cursor: the slots that get played
    are the longest prefix whose indices are strictly increasing and name
    atom positions 1..n, and after atom `i` come the placeholders of those
    slots whose index is `i + 1`. */
module Reconstruct {
  import opened Jsx
  import opened JsxProperties

  /** `<Name>` for a component with an identifier name (nothing for any other
      name), `{}` for an expression, `{...}` for a spread. */
  function Placeholder(kind: SlotKind): string
  {
    match kind
    case Component(e) => if e.name.Identifier? then "<" + e.name.ident + ">" else ""
    case Expression(_) => "{}"
    case Spread(_) => "{...}"
  }

  /** A component's placeholder is its name in angle brackets, and is empty
      only when the component has no identifier name; the other kinds are
      written in braces, the spread one with the dots. */
  lemma PlaceholderShape(kind: SlotKind)
    ensures var p := Placeholder(kind);
            && (p == [] <==> kind.Component? && kind.element.name.NonIdentifier?)
            && (kind.Component? && kind.element.name.Identifier? ==>
                  |p| == |kind.element.name.ident| + 2 && p[0] == '<' && p[|p| - 1] == '>' &&
                  p[1..|p| - 1] == kind.element.name.ident)
            && (!kind.Component? ==> p[0] == '{' && p[|p| - 1] == '}' && (kind.Spread? <==> |p| == 5))
  {
  }

  // ---------------------------------------------------------------------
  // Which slots are played
  // ---------------------------------------------------------------------

  /** The first `m` slots can all be played against `n` atoms. */
  predicate Playable(slots: seq<Slot>, n: nat, m: nat)
    requires m <= |slots|
  {
    && (forall k :: 0 <= k < m ==> 1 <= slots[k].index <= n)
    && (forall k, l :: 0 <= k < l < m ==> slots[k].index < slots[l].index)
  }

  function PlayedFrom(slots: seq<Slot>, n: nat, m: nat): (c: nat)
    requires m <= |slots| && Playable(slots, n, m)
    ensures m <= c <= |slots| && Playable(slots, n, c)
    ensures c < |slots| ==> !Playable(slots, n, c + 1)
    decreases |slots| - m
  {
    if m < |slots| && Playable(slots, n, m + 1) then PlayedFrom(slots, n, m + 1) else m
  }

  /** The length of the longest playable prefix. */
  function Played(slots: seq<Slot>, n: nat): (c: nat)
    ensures c <= |slots| && Playable(slots, n, c)
    ensures c < |slots| ==> !Playable(slots, n, c + 1)
  {
    PlayedFrom(slots, n, 0)
  }

  // ---------------------------------------------------------------------
  // What is written
  // ---------------------------------------------------------------------

  /** The placeholders, in order, of the slots whose index is `p`. */
  function PlaceholdersAt(slots: seq<Slot>, p: nat): string
  {
    if slots == [] then ""
    else (if slots[0].index == p then Placeholder(slots[0].kind) else "") + PlaceholdersAt(slots[1..], p)
  }

  /** The first `i` atoms, each followed by the placeholders of the slots
      that point just past it. */
  function Rendered(t: Template, slots: seq<Slot>, i: nat): string
    requires i <= |t|
  {
    if i == 0 then "" else Rendered(t, slots, i - 1) + t[i - 1] + PlaceholdersAt(slots, i)
  }

  function Render(t: Template, slots: seq<Slot>): string
  {
    Rendered(t, slots[..Played(slots, |t|)], |t|)
  }

  /** The atoms alone, concatenated. */
  function Concat(t: Template): string
  {
    if t == [] then "" else Concat(t[..|t| - 1]) + t[|t| - 1]
  }

  lemma {:induction false} PlaceholdersAtNone(slots: seq<Slot>, p: nat)
    requires forall k :: 0 <= k < |slots| ==> slots[k].index != p
    ensures PlaceholdersAt(slots, p) == ""
    decreases |slots|
  {
    if slots != [] {
      PlaceholdersAtNone(slots[1..], p);
    }
  }

  lemma {:induction false} PlaceholdersAtOne(slots: seq<Slot>, j: nat, p: nat)
    requires j < |slots| && slots[j].index == p
    requires forall k :: 0 <= k < |slots| && k != j ==> slots[k].index != p
    ensures PlaceholdersAt(slots, p) == Placeholder(slots[j].kind)
    decreases |slots|
  {
    if j == 0 {
      PlaceholdersAtNone(slots[1..], p);
    } else {
      PlaceholdersAtOne(slots[1..], j - 1, p);
    }
  }

  /** The first `j` slots point at or before position `i`: the cursor has
      passed them. */
  predicate Behind(slots: seq<Slot>, j: nat, i: nat)
    requires j <= |slots|
  {
    forall k :: 0 <= k < j ==> slots[k].index <= i
  }

  /** The slot under the cursor can only match position `i + 1` when it is
      played: the first unplayable slot repeats or undercuts an index already
      passed, or points outside the template. */
  lemma CursorHitIsPlayed(t: Template, slots: seq<Slot>, j: nat, i: nat)
    requires i < |t| && j <= Played(slots, |t|)
    requires Behind(slots, j, i)
    ensures j < |slots| && slots[j].index == i + 1 ==> j < Played(slots, |t|)
  {
    var m := Played(slots, |t|);
    if j == m && j < |slots| {
      assert !Playable(slots, |t|, m + 1);
      if m > 0 {
        assert slots[m - 1].index <= i;
      }
      assert slots[j].index != i + 1;
    }
  }

  /** A played slot pointing past atom `i`, with every earlier slot behind
      the cursor, is the only played slot with that index. */
  lemma PlayedHit(t: Template, slots: seq<Slot>, j: nat, i: nat)
    requires j < Played(slots, |t|) && Behind(slots, j, i) && slots[j].index == i + 1
    ensures PlaceholdersAt(slots[..Played(slots, |t|)], i + 1) == Placeholder(slots[j].kind)
  {
    var played := slots[..Played(slots, |t|)];
    forall k | 0 <= k < |played| && k != j
      ensures played[k].index != i + 1
    {
      if k > j {
        assert slots[j].index < slots[k].index;
      }
    }
    PlaceholdersAtOne(played, j, i + 1);
  }

  /** When the next played slot points beyond atom `i + 1`, no played slot
      points past atom `i`. */
  lemma PlayedMiss(t: Template, slots: seq<Slot>, j: nat, i: nat)
    requires j <= Played(slots, |t|) && Behind(slots, j, i)
    requires j < Played(slots, |t|) ==> slots[j].index > i + 1
    ensures PlaceholdersAt(slots[..Played(slots, |t|)], i + 1) == ""
  {
    var played := slots[..Played(slots, |t|)];
    forall k | 0 <= k < |played|
      ensures played[k].index != i + 1
    {
      if k > j {
        assert slots[j].index < slots[k].index;
      }
    }
    PlaceholdersAtNone(played, i + 1);
  }

  /** One step of the cursor: after `i` atoms the first `j` played slots are
      behind the cursor and the next played one lies ahead; the slot under
      the cursor matches position `i + 1` exactly when a played slot does. */
  lemma PlaybackStep(t: Template, slots: seq<Slot>, j: nat, i: nat)
    requires i < |t| && j <= Played(slots, |t|)
    requires Behind(slots, j, i)
    requires j < Played(slots, |t|) ==> slots[j].index > i
    ensures var m := Played(slots, |t|);
            var hit := j < |slots| && slots[j].index == i + 1;
            var j' := if hit then j + 1 else j;
            && (hit ==> j < m)
            && Rendered(t, slots[..m], i + 1) ==
                 Rendered(t, slots[..m], i) + t[i] + (if hit then Placeholder(slots[j].kind) else "")
            && Behind(slots, j', i + 1)
            && (j' < m ==> slots[j'].index > i + 1)
  {
    CursorHitIsPlayed(t, slots, j, i);
    if j < |slots| && slots[j].index == i + 1 {
      PlayedHit(t, slots, j, i);
    } else {
      PlayedMiss(t, slots, j, i);
    }
  }

  // ---------------------------------------------------------------------
  // The loop
  // ---------------------------------------------------------------------

  /** One line of the diagnostic output for one (template, slot list) pair. */
  method Reconstruct(template: Template, slots: seq<Slot>) returns (s: string)
    ensures s == Render(template, slots)
  {
    ghost var m := Played(slots, |template|);
    ghost var played := slots[..m];
    s := "";
    var j: nat := 0;
    for i := 0 to |template|
      invariant j <= m
      invariant Behind(slots, j, i)
      invariant j < m ==> slots[j].index > i
      invariant s == Rendered(template, played, i)
    {
      PlaybackStep(template, slots, j, i);
      s := s + template[i];
      if j < |slots| && slots[j].index == i + 1 {
        s := s + Placeholder(slots[j].kind);
        j := j + 1;
      }
    }
  }

  /** The pairs of a forest are taken by `zip`: one line per position up to
      the shorter of the two sequences. */
  method ReconstructAll(templates: seq<Template>, slotLists: seq<seq<Slot>>) returns (lines: seq<string>)
    ensures |lines| == if |templates| < |slotLists| then |templates| else |slotLists|
    ensures forall k :: 0 <= k < |lines| ==> lines[k] == Render(templates[k], slotLists[k])
  {
    var n := if |templates| < |slotLists| then |templates| else |slotLists|;
    lines := [];
    for k := 0 to n
      invariant |lines| == k
      invariant forall l :: 0 <= l < k ==> lines[l] == Render(templates[l], slotLists[l])
    {
      var line := Reconstruct(templates[k], slotLists[k]);
      lines := lines + [line];
    }
  }

  // ---------------------------------------------------------------------
  // Properties of the playback
  // ---------------------------------------------------------------------

  /** An empty template renders as the empty string, whatever the slots. */
  lemma RenderEmptyTemplate(slots: seq<Slot>)
    ensures Render([], slots) == ""
  {
  }

  lemma {:induction false} RenderedNoSlots(t: Template, i: nat)
    requires i <= |t|
    ensures Rendered(t, [], i) == Concat(t[..i])
    decreases i
  {
    if i > 0 {
      RenderedNoSlots(t, i - 1);
      assert t[..i][..i - 1] == t[..i - 1];
    }
  }

  /** With no slots, or a first slot at index 0, the output is the atoms alone. */
  lemma RenderAtomsOnly(t: Template, slots: seq<Slot>)
    requires slots == [] || slots[0].index == 0
    ensures Render(t, slots) == Concat(t)
  {
    assert Played(slots, |t|) == 0;
    assert slots[..0] == [];
    RenderedNoSlots(t, |t|);
    assert t[..|t|] == t;
  }

  /** Until the cursor reaches a slot, the output is the atoms alone. */
  lemma {:induction false} RenderedBefore(t: Template, slots: seq<Slot>, i: nat)
    requires i <= |t|
    requires forall k :: 0 <= k < |slots| ==> slots[k].index > i
    ensures Rendered(t, slots, i) == Concat(t[..i])
    decreases i
  {
    if i > 0 {
      RenderedBefore(t, slots, i - 1);
      PlaceholdersAtNone(slots, i);
      assert t[..i][..i - 1] == t[..i - 1];
    }
  }

  /** At its index, a lone slot's placeholder follows the atoms before it. */
  lemma RenderedAtOne(t: Template, s: Slot)
    requires 1 <= s.index <= |t|
    ensures Rendered(t, [s], s.index) == Concat(t[..s.index]) + Placeholder(s.kind)
  {
    var i := s.index;
    var ph := Placeholder(s.kind);
    var pre := Concat(t[..i - 1]);
    assert [s][1..] == [];
    RenderedBefore(t, [s], i - 1);
    assert ph + "" == ph;
    assert PlaceholdersAt([s], i) == ph;
    assert t[..i][..i - 1] == t[..i - 1];
    assert Concat(t[..i]) == pre + t[i - 1];
    assert Rendered(t, [s], i) == pre + t[i - 1] + ph;
  }

  /** Where no slot points into positions `a + 1 .. i`, the atoms between
      are written as they are. */
  lemma {:induction false} RenderedGap(t: Template, slots: seq<Slot>, a: nat, i: nat)
    requires a <= i <= |t|
    requires forall k :: 0 <= k < |slots| ==> !(a < slots[k].index <= i)
    ensures Rendered(t, slots, i) == Rendered(t, slots, a) + Concat(t[a..i])
    decreases i
  {
    if i == a {
      assert t[a..i] == [];
      assert Rendered(t, slots, a) + "" == Rendered(t, slots, a);
    } else {
      var before := Rendered(t, slots, a);
      var gap := Concat(t[a..i - 1]);
      var last := t[i - 1];
      assert Rendered(t, slots, i - 1) == before + gap by {
        RenderedGap(t, slots, a, i - 1);
      }
      assert PlaceholdersAt(slots, i) == "" by {
        PlaceholdersAtNone(slots, i);
      }
      assert Concat(t[a..i]) == gap + last by {
        assert t[a..i][..i - 1 - a] == t[a..i - 1];
        assert t[a..i][i - 1 - a] == last;
      }
      assert Rendered(t, slots, i) == (before + gap) + last + "";
      assert (before + gap) + last + "" == before + (gap + last);
    }
  }

  /** Past its index, a lone slot's placeholder sits between the atoms before
      it and the atoms after it. */
  lemma RenderedAfterOne(t: Template, s: Slot)
    requires 1 <= s.index <= |t|
    ensures Rendered(t, [s], |t|) == Concat(t[..s.index]) + Placeholder(s.kind) + Concat(t[s.index..])
  {
    var lone := [s];
    var head := Concat(t[..s.index]) + Placeholder(s.kind);
    assert Rendered(t, lone, s.index) == head by {
      RenderedAtOne(t, s);
    }
    assert Rendered(t, lone, |t|) == Rendered(t, lone, s.index) + Concat(t[s.index..|t|]) by {
      assert forall k :: 0 <= k < |lone| ==> lone[k] == s;
      RenderedGap(t, lone, s.index, |t|);
    }
    assert t[s.index..|t|] == t[s.index..];
  }

  /** A pair whose first slot fits and is alone, or is followed by a slot with
      the same index, plays back as the atoms up to that index, the slot's
      placeholder, then the remaining atoms. */
  lemma RenderOneSlot(t: Template, slots: seq<Slot>)
    requires |slots| > 0 && 1 <= slots[0].index <= |t|
    requires |slots| == 1 || slots[1].index == slots[0].index
    ensures Render(t, slots) ==
              Concat(t[..slots[0].index]) + Placeholder(slots[0].kind) + Concat(t[slots[0].index..])
  {
    assert Playable(slots, |t|, 1);
    if |slots| > 1 {
      assert !Playable(slots, |t|, 2);
    }
    assert slots[..Played(slots, |t|)] == [slots[0]];
    RenderedAfterOne(t, slots[0]);
  }

  /** A slot at index 0 or past the template is never played, and neither is
      any slot after it. */
  lemma UnplayableSlotBlocks(t: Template, slots: seq<Slot>, k: nat)
    requires k < |slots| && (slots[k].index == 0 || slots[k].index > |t|)
    ensures Played(slots, |t|) <= k
  {
  }

  /** Of two neighbouring slots with the same index only the first can be
      played; the second and all later ones are dropped. */
  lemma SameIndexOnlyFirst(t: Template, slots: seq<Slot>, k: nat)
    requires k + 1 < |slots| && slots[k].index == slots[k + 1].index
    ensures Played(slots, |t|) <= k + 1
  {
  }

  /** When the indices are strictly increasing and within 1..n every slot is
      played, and its placeholder is written exactly once, right after atom
      `index - 1`; no other position gets a placeholder. */
  lemma EveryPlaceholderOnce(t: Template, slots: seq<Slot>)
    requires Playable(slots, |t|, |slots|)
    ensures Played(slots, |t|) == |slots|
    ensures Render(t, slots) == Rendered(t, slots, |t|)
    ensures forall k :: 0 <= k < |slots| ==>
              Rendered(t, slots, slots[k].index) ==
                Rendered(t, slots, slots[k].index - 1) + t[slots[k].index - 1] + Placeholder(slots[k].kind)
    ensures forall p :: (forall k :: 0 <= k < |slots| ==> slots[k].index != p) ==> PlaceholdersAt(slots, p) == ""
  {
    assert slots[..|slots|] == slots;
    forall k | 0 <= k < |slots|
      ensures PlaceholdersAt(slots, slots[k].index) == Placeholder(slots[k].kind)
    {
      PlaceholdersAtOne(slots, k, slots[k].index);
    }
    forall p | forall k :: 0 <= k < |slots| ==> slots[k].index != p
      ensures PlaceholdersAt(slots, p) == ""
    {
      PlaceholdersAtNone(slots, p);
    }
  }

  /** For a slot list that fits its template (as every slot list of a walk
      does), all slots are played exactly when the first index is at least 1
      and no two neighbours share an index. */
  lemma AllPlayedIff(t: Template, slots: seq<Slot>)
    requires Fits(t, slots)
    ensures Played(slots, |t|) == |slots| <==>
              (slots == [] || slots[0].index >= 1) &&
              forall k :: 0 <= k < |slots| - 1 ==> slots[k].index != slots[k + 1].index
  {
    if (slots == [] || slots[0].index >= 1) &&
       forall k :: 0 <= k < |slots| - 1 ==> slots[k].index != slots[k + 1].index
    {
      forall k, l | 0 <= k < l < |slots|
        ensures slots[k].index < slots[l].index
      {
        assert slots[l - 1].index != slots[l].index;
      }
      forall k | 0 <= k < |slots|
        ensures 1 <= slots[k].index
      {
        assert slots[0].index <= slots[k].index;
      }
      assert Playable(slots, |t|, |slots|);
    }
    if Played(slots, |t|) == |slots| {
      forall k | 0 <= k < |slots| - 1
        ensures slots[k].index != slots[k + 1].index
      {
      }
    }
  }

  /** Playback of a walked forest drops no placeholder exactly when, in that
      pair's slot list, no slot sits at index 0 and no two neighbours share an
      index. */
  lemma WalkedPairPlayedIff(root: JsxElement, k: nat)
    requires Walk(root).Ok? && k < |Walk(root).value.templates| && k < |Walk(root).value.slotLists|
    ensures var f := Walk(root).value;
            var ss := f.slotLists[k];
            Played(ss, |f.templates[k]|) == |ss| <==>
              (ss == [] || ss[0].index >= 1) &&
              forall j :: 0 <= j < |ss| - 1 ==> ss[j].index != ss[j + 1].index
  {
    WalkWellFormed(root);
    var f := Walk(root).value;
    AllPlayedIff(f.templates[k], f.slotLists[k]);
  }
}
