/** `toggle` of the `$$` wrapper: flips the element's CSS visibility. */
module Visibility {

  const Visible: string := "visible"
  const Hidden: string := "hidden"

  /** The visibility `toggle` leaves: `hidden` after `visible`, otherwise
      `visible` (an unset or any other value counts as not visible). */
  function Toggled(visibility: string): string
  {
    if visibility == Visible then Hidden else Visible
  }

  /** After one toggle the element is in one of the two states, and from
      there two toggles come back to where they started. */
  lemma ToggleIsTwoState(visibility: string)
    ensures Toggled(visibility) == Visible || Toggled(visibility) == Hidden
    ensures Toggled(visibility) != visibility
    ensures Toggled(Toggled(Toggled(visibility))) == Toggled(visibility)
  {
  }

  /** The style of a selected element, as far as toggle touches it. */
  class Element {
    /** `element.style.visibility`. */
    var visibility: string

    constructor (visibility: string)
      ensures this.visibility == visibility
    {
      this.visibility := visibility;
    }

    method Toggle()
      modifies this
      ensures visibility == Toggled(old(visibility))
    {
      visibility := Toggled(visibility);
    }
  }
}
