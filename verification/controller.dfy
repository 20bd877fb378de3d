/**
 * The page controller of www/index.js: the modifier table that keyboard
 * events flip and clicks resolve, and the play/pause state of the render loop.
 *
 * The scheduler is abstracted away. `frameId` is the handle of the one
 * pending animation-frame callback, or None when the loop is paused. A new
 * handle is a parameter of the call that schedules one, and that callback
 * firing is the method OnAnimationFrame.
 */
module App {
  import opened Wrappers
  import opened Life
  import opened Engine
  import opened Drawing
  import opened Rendering

  /** One entry of the `modifiers` table: the key that holds it and the
      pattern a click stamps while it is held. */
  datatype Modifier = Modifier(key: string, enabled: bool, pattern: Pattern)

  /** The table with Alt and Shift held or not, in the table's order. */
  function Table(alt: bool, shift: bool): (table: seq<Modifier>)
  {
    [Modifier("Alt", alt, Glider), Modifier("Shift", shift, Pulsar)]
  }

  /** The table at page load: Alt stamps a glider, Shift a pulsar, neither held. */
  const InitialModifiers: seq<Modifier> := Table(false, false)

  /** `modifiers[key].enabled = on` when key names an entry; other keys leave
      the table as it is. */
  function WithKey(table: seq<Modifier>, key: string, on: bool): (updated: seq<Modifier>)
    ensures |updated| == |table|
    ensures forall i :: 0 <= i < |table| ==>
              updated[i].key == table[i].key && updated[i].pattern == table[i].pattern
    ensures forall i :: 0 <= i < |table| && table[i].key != key ==> updated[i] == table[i]
  {
    seq(|table|, i requires 0 <= i < |table| =>
      if table[i].key == key then table[i].(enabled := on) else table[i])
  }

  /** The keydown and keyup handlers set exactly the flag of the key pressed
      or released, and any other key changes nothing. */
  lemma KeyEvents(alt: bool, shift: bool, key: string, on: bool)
    ensures key == "Alt" ==> WithKey(Table(alt, shift), key, on) == Table(on, shift)
    ensures key == "Shift" ==> WithKey(Table(alt, shift), key, on) == Table(alt, on)
    ensures key != "Alt" && key != "Shift" ==> WithKey(Table(alt, shift), key, on) == Table(alt, shift)
  {
    var t := Table(alt, shift);
    assert t[0].key == "Alt" && t[1].key == "Shift";
    assert "Alt" != "Shift" by {
      assert "Alt"[0] != "Shift"[0];
    }
  }

  /** The pattern of the last enabled entry, if any. */
  function Resolved(table: seq<Modifier>): (pattern: Option<Pattern>)
    decreases |table|
  {
    if table == [] then None
    else if table[|table| - 1].enabled then Some(table[|table| - 1].pattern)
    else Resolved(table[..|table| - 1])
  }

  /** A click resolves to the pattern of an enabled entry with no enabled
      entry after it, and to None exactly when no entry is enabled. */
  lemma {:induction false} ResolvedIsLastEnabled(table: seq<Modifier>)
    ensures Resolved(table) == None <==> forall i :: 0 <= i < |table| ==> !table[i].enabled
    ensures Resolved(table).Some? ==>
              exists i :: 0 <= i < |table| && table[i].enabled && table[i].pattern == Resolved(table).value
                          && forall j :: i < j < |table| ==> !table[j].enabled
    decreases |table|
  {
    if table != [] && !table[|table| - 1].enabled {
      var init := table[..|table| - 1];
      ResolvedIsLastEnabled(init);
      if Resolved(table).Some? {
        var i :| 0 <= i < |init| && init[i].enabled && init[i].pattern == Resolved(init).value
                 && forall j :: i < j < |init| ==> !init[j].enabled;
        assert table[i] == init[i];
      }
    }
  }

  /** With both keys held Shift's pulsar wins; with one held its pattern;
      with neither a click toggles a cell. */
  lemma HeldKeysResolve(alt: bool, shift: bool)
    ensures Resolved(Table(alt, shift)) == if shift then Some(Pulsar) else if alt then Some(Glider) else None
  {
    var t := Table(alt, shift);
    assert t[..1] == [t[0]];
    assert [t[0]][..0] == [];
    assert Resolved(t[..1]) == if alt then Some(Glider) else None;
  }

  /** The click handler's loop: every enabled entry overwrites the choice,
      so the last one wins. */
  method ResolveModifier(table: seq<Modifier>) returns (modifier: Option<Pattern>)
    ensures modifier == Resolved(table)
  {
    modifier := None;
    var i := 0;
    while i < |table|
      invariant 0 <= i <= |table|
      invariant modifier == Resolved(table[..i])
    {
      assert table[..i + 1][..i] == table[..i];
      if table[i].enabled {
        modifier := Some(table[i].pattern);
      }
      i := i + 1;
    }
    assert table[..i] == table;
  }

  class Game {
    const renderer: UniverseRenderer
    var modifiers: seq<Modifier>
    /** The pending animation-frame request, or None when paused. */
    var frameId: Option<nat>
    /** The tick button's `disabled` attribute. */
    var tickDisabled: bool

    /** The renderer is valid and the table has its two entries. */
    ghost predicate Wired()
      reads this, renderer, renderer.universe
    {
      && renderer.Valid()
      && |modifiers| == 2 && modifiers == Table(modifiers[0].enabled, modifiers[1].enabled)
    }

    /** Wired, and the tick button is disabled exactly while the loop runs. */
    ghost predicate Valid()
      reads this, renderer, renderer.universe
    {
      Wired() && (tickDisabled <==> frameId.Some?)
    }

    /** `isPaused`: no frame is pending, which is when the tick button is
        enabled. */
    function IsPaused(): (paused: bool)
      reads this, renderer, renderer.universe
      requires Valid()
      ensures paused <==> !tickDisabled
    {
      frameId == None
    }

    /** Page start-up: the renderer created and jump-started, the table with
        no key held, then `play`, so the game starts running with one
        generation already drawn. */
    constructor (clientWidth: nat, clientHeight: nat, draws: seq<bool>, handle: nat)
      requires GridDimension(clientWidth) < U32 && GridDimension(clientHeight) < U32
      requires GridDimension(clientWidth) * GridDimension(clientHeight) < U32
      requires |draws| == GridDimension(clientWidth) * GridDimension(clientHeight)
      ensures Valid() && fresh(renderer) && fresh(renderer.universe)
      ensures modifiers == InitialModifiers
      ensures frameId == Some(handle) && tickDisabled
      ensures renderer.Current()
    {
      modifiers := InitialModifiers;
      frameId := None;
      tickDisabled := false;
      renderer := new UniverseRenderer(clientWidth, clientHeight, draws);
      new;
      Play(handle);
    }

    /** `renderLoop`: one generation drawn, then the next frame requested. */
    method RenderLoop(handle: nat)
      requires Wired() && tickDisabled
      modifies this, renderer, renderer.universe, renderer.universe.cells, renderer.universe.cellsNext
      ensures Valid()
      ensures frameId == Some(handle) && tickDisabled && modifiers == old(modifiers)
      ensures renderer.universe.cells[..] == NextGeneration(old(renderer.universe.cells[..]), renderer.uWidth, renderer.uHeight)
      ensures renderer.universe.cellsDiff == ChangedIndices(old(renderer.universe.cells[..]), renderer.universe.cells[..], renderer.uWidth * renderer.uHeight)
      ensures renderer.ops == old(renderer.ops) + Frame(renderer.universe.cells[..], renderer.universe.cellsDiff, renderer.uWidth)
      ensures old(renderer.Current()) ==> renderer.Current()
    {
      renderer.Render();
      frameId := Some(handle);
    }

    /** `play`: the tick button disabled and the loop entered at once, so one
        generation is drawn before `frameId` is set. */
    method Play(handle: nat)
      requires Valid()
      modifies this, renderer, renderer.universe, renderer.universe.cells, renderer.universe.cellsNext
      ensures Valid()
      ensures frameId == Some(handle) && tickDisabled && modifiers == old(modifiers)
      ensures renderer.universe.cells[..] == NextGeneration(old(renderer.universe.cells[..]), renderer.uWidth, renderer.uHeight)
      ensures renderer.universe.cellsDiff == ChangedIndices(old(renderer.universe.cells[..]), renderer.universe.cells[..], renderer.uWidth * renderer.uHeight)
      ensures renderer.ops == old(renderer.ops) + Frame(renderer.universe.cells[..], renderer.universe.cellsDiff, renderer.uWidth)
      ensures old(renderer.Current()) ==> renderer.Current()
    {
      tickDisabled := true;
      RenderLoop(handle);
    }

    /** `pause`: the pending frame cancelled, the loop paused, the tick
        button enabled; the universe and the canvas are untouched. */
    method Pause()
      requires Valid()
      modifies this
      ensures Valid()
      ensures frameId == None && !tickDisabled && modifiers == old(modifiers)
    {
      tickDisabled := false;
      frameId := None;
    }

    /** The pause button: plays when paused and pauses when running. */
    method OnPauseButton(handle: nat)
      requires Valid()
      modifies this, renderer, renderer.universe, renderer.universe.cells, renderer.universe.cellsNext
      ensures Valid() && modifiers == old(modifiers)
      ensures old(IsPaused()) ==>
                frameId == Some(handle)
                && renderer.universe.cells[..] == NextGeneration(old(renderer.universe.cells[..]), renderer.uWidth, renderer.uHeight)
                && renderer.universe.cellsDiff == ChangedIndices(old(renderer.universe.cells[..]), renderer.universe.cells[..], renderer.uWidth * renderer.uHeight)
                && renderer.ops == old(renderer.ops) + Frame(renderer.universe.cells[..], renderer.universe.cellsDiff, renderer.uWidth)
      ensures !old(IsPaused()) ==>
                frameId == None && renderer.universe.cells[..] == old(renderer.universe.cells[..])
                && renderer.ops == old(renderer.ops) && renderer.universe.cellsDiff == old(renderer.universe.cellsDiff)
      ensures IsPaused() == !old(IsPaused())
      ensures old(renderer.Current()) ==> renderer.Current()
    {
      if IsPaused() {
        Play(handle);
      } else {
        Pause();
      }
    }

    /** The tick button: one generation while paused. A disabled button
        receives no clicks, so while running nothing happens. */
    method OnTickButton()
      requires Valid()
      modifies renderer, renderer.universe, renderer.universe.cells, renderer.universe.cellsNext
      ensures Valid()
      ensures old(IsPaused()) ==>
                renderer.universe.cells[..] == NextGeneration(old(renderer.universe.cells[..]), renderer.uWidth, renderer.uHeight)
                && renderer.universe.cellsDiff == ChangedIndices(old(renderer.universe.cells[..]), renderer.universe.cells[..], renderer.uWidth * renderer.uHeight)
                && renderer.ops == old(renderer.ops) + Frame(renderer.universe.cells[..], renderer.universe.cellsDiff, renderer.uWidth)
      ensures !old(IsPaused()) ==> renderer.universe.cells[..] == old(renderer.universe.cells[..]) && renderer.ops == old(renderer.ops) && renderer.universe.cellsDiff == old(renderer.universe.cellsDiff)
      ensures old(renderer.Current()) ==> renderer.Current()
    {
      if !tickDisabled {
        renderer.Tick();
      }
    }

    /** The requested animation frame arriving. Only a pending request fires:
        a cancelled one never does. */
    method OnAnimationFrame(handle: nat)
      requires Valid()
      modifies this, renderer, renderer.universe, renderer.universe.cells, renderer.universe.cellsNext
      ensures Valid() && modifiers == old(modifiers)
      ensures old(IsPaused()) ==>
                frameId == None && renderer.universe.cells[..] == old(renderer.universe.cells[..])
                && renderer.ops == old(renderer.ops) && renderer.universe.cellsDiff == old(renderer.universe.cellsDiff)
      ensures !old(IsPaused()) ==>
                frameId == Some(handle)
                && renderer.universe.cells[..] == NextGeneration(old(renderer.universe.cells[..]), renderer.uWidth, renderer.uHeight)
                && renderer.universe.cellsDiff == ChangedIndices(old(renderer.universe.cells[..]), renderer.universe.cells[..], renderer.uWidth * renderer.uHeight)
                && renderer.ops == old(renderer.ops) + Frame(renderer.universe.cells[..], renderer.universe.cellsDiff, renderer.uWidth)
      ensures old(renderer.Current()) ==> renderer.Current()
    {
      if frameId.Some? {
        RenderLoop(handle);
      }
    }

    /** `keydown`: the pressed key's entry becomes enabled. */
    method OnKeyDown(key: string)
      requires Valid()
      modifies this
      ensures Valid() && frameId == old(frameId)
      ensures modifiers == WithKey(old(modifiers), key, true)
    {
      KeyEvents(modifiers[0].enabled, modifiers[1].enabled, key, true);
      modifiers := WithKey(modifiers, key, true);
    }

    /** `keyup`: the released key's entry becomes disabled. */
    method OnKeyUp(key: string)
      requires Valid()
      modifies this
      ensures Valid() && frameId == old(frameId)
      ensures modifiers == WithKey(old(modifiers), key, false)
    {
      KeyEvents(modifiers[0].enabled, modifiers[1].enabled, key, false);
      modifiers := WithKey(modifiers, key, false);
    }

    /** A click anywhere on the page: the modifier resolved from the table,
        then handed with the click to the renderer, which mutates the
        clicked cell and draws one frame. */
    method OnClick(onCanvas: bool, x: nat, y: nat)
      requires Valid()
      requires onCanvas ==> renderer.uWidth > 0 && renderer.uHeight > 0
      modifies renderer, renderer.universe, renderer.universe.cells
      ensures Valid()
      ensures !onCanvas ==> renderer.universe.cells[..] == old(renderer.universe.cells[..])
                            && renderer.ops == old(renderer.ops)
                            && renderer.universe.cellsDiff == old(renderer.universe.cellsDiff)
      ensures onCanvas ==> renderer.ops == old(renderer.ops)
                             + Frame(renderer.universe.cells[..], renderer.universe.cellsDiff, renderer.uWidth)
      ensures onCanvas && Resolved(modifiers) == Some(Pulsar) ==>
                renderer.universe.cells[..] == Stamp(old(renderer.universe.cells[..]), renderer.uWidth, renderer.uHeight,
                  PatternPoints(ClickCell(y, renderer.uHeight) as nat, ClickCell(x, renderer.uWidth) as nat, PulsarOffsets))
                && renderer.universe.cellsDiff == old(renderer.universe.cellsDiff)
      ensures onCanvas && Resolved(modifiers) == Some(Glider) ==>
                renderer.universe.cells[..] == Stamp(old(renderer.universe.cells[..]), renderer.uWidth, renderer.uHeight,
                  PatternPoints(ClickCell(y, renderer.uHeight) as nat, ClickCell(x, renderer.uWidth) as nat, GliderOffsets))
                && renderer.universe.cellsDiff == old(renderer.universe.cellsDiff)
      ensures onCanvas && Resolved(modifiers) == None ==>
                var idx := GetIndex(renderer.uWidth, ClickCell(y, renderer.uHeight) as nat, ClickCell(x, renderer.uWidth) as nat);
                && idx < renderer.universe.cells.Length
                && renderer.universe.cells[..] == old(renderer.universe.cells[..])[idx := Toggle(old(renderer.universe.cells[idx]))]
                && renderer.universe.cellsDiff == old(renderer.universe.cellsDiff) + [idx]
      ensures Resolved(modifiers) == None ==> old(renderer.Current()) ==> renderer.Current()
    {
      var modifier := ResolveModifier(modifiers);
      renderer.HandleCanvasClick(onCanvas, x, y, modifier);
    }

    /** The reset-to-dead button. */
    method OnResetDead()
      requires Valid()
      modifies renderer, renderer.universe, renderer.universe.cells
      ensures Valid()
      ensures forall i :: 0 <= i < renderer.universe.cells.Length ==> renderer.universe.cells[i] == Dead
      ensures renderer.universe.cellsDiff == AllIndices(renderer.universe.cells.Length)
      ensures renderer.ops == old(renderer.ops) + Frame(renderer.universe.cells[..], renderer.universe.cellsDiff, renderer.uWidth)
      ensures renderer.Current()
    {
      renderer.SetAllDead();
    }

    /** The reset-to-random button; `draws` stands for the random source. */
    method OnResetRandom(draws: seq<bool>)
      requires Valid() && |draws| == renderer.universe.cells.Length
      modifies renderer, renderer.universe, renderer.universe.cells
      ensures Valid()
      ensures forall i :: 0 <= i < renderer.universe.cells.Length ==> (renderer.universe.cells[i] == Alive <==> draws[i])
      ensures renderer.universe.cellsDiff == AllIndices(renderer.universe.cells.Length)
      ensures renderer.ops == old(renderer.ops) + Frame(renderer.universe.cells[..], renderer.universe.cellsDiff, renderer.uWidth)
      ensures renderer.Current()
    {
      renderer.SetRandom(draws);
    }
  }
}
