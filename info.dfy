/** The info display switcher (`InfoElementType` and `InfoElement` in
    src/ui/elements/info.rs). The overlay text and its drawing are not modelled. */
module Info {

  datatype InfoElementType = Egui | Overlay | None

  /** `#[default]`: no info display. */
  const DEFAULT_TYPE: InfoElementType := None

  /** `InfoElementType::next`: Overlay, then nothing, then the egui window,
      then the overlay again. */
  function Next(t: InfoElementType): (r: InfoElementType)
    ensures r != t
    ensures t == Overlay ==> r == None
    ensures t == None ==> r == Egui
    ensures t == Egui ==> r == Overlay
  {
    match t
    case Overlay => None
    case None => Egui
    case Egui => Overlay
  }

  /** `k` presses of the switch key. */
  function NextN(t: InfoElementType, k: nat): InfoElementType {
    if k == 0 then t else Next(NextN(t, k - 1))
  }

  /** The switch is a 3-cycle: `k` presses return to the start exactly when
      `k` is a multiple of 3. */
  lemma {:induction false} NextCycle(t: InfoElementType, k: nat)
    ensures NextN(t, k) == t <==> k % 3 == 0
    ensures NextN(t, k) == NextN(t, k % 3)
  {
    if k >= 3 {
      NextCycle(t, k - 3);
      var u := NextN(t, k - 3);
      assert NextN(t, k - 2) == Next(u);
      assert NextN(t, k - 1) == Next(Next(u));
      assert NextN(t, k) == Next(Next(Next(u)));
      assert Next(Next(Next(u))) == u;
    } else {
      assert NextN(t, 1) == Next(t);
      assert NextN(t, 2) == Next(Next(t));
    }
  }

  /** Every variant is reached from the default. */
  lemma AllTypesReachable(t: InfoElementType)
    ensures exists k :: 0 <= k < 3 && NextN(DEFAULT_TYPE, k) == t
  {
    assert NextN(DEFAULT_TYPE, 1) == Egui;
    assert NextN(DEFAULT_TYPE, 2) == Overlay;
  }

  class InfoElement {
    var infoElementType: InfoElementType

    /** `InfoElement::new` starts at the default variant. */
    constructor ()
      ensures infoElementType == DEFAULT_TYPE
    {
      infoElementType := DEFAULT_TYPE;
    }

    /** `next_type`: exactly one `next`. */
    method NextType()
      modifies this
      ensures infoElementType == Next(old(infoElementType))
    {
      infoElementType := Next(infoElementType);
    }
  }
}
