/** The transition names a tab animates and the declaration each one stands
    for in the tab's composite transition style. appendTransition and
    removeTransition both build the declaration with this mapping and hand it
    to the shared transitions helper, which is not part of this model. */
module TabTransitions {

  /** The three names a tab uses. */
  predicate Known(name: string) {
    name == "left" || name == "width" || name == "background-color"
  }

  /** The declaration for a transition name: the property, the positioning
      duration in seconds and, for left and width, the positioning easing.
      `duration` is the duration already written as text. Any other name
      gives the empty declaration. */
  function Declaration(name: string, duration: string, easing: string): (d: string)
    ensures Known(name) ==> name + " " <= d
    ensures !Known(name) ==> d == ""
  {
    if name == "left" then "left " + duration + "s " + easing
    else if name == "width" then "width " + duration + "s " + easing
    else if name == "background-color" then "background-color " + duration + "s"
    else ""
  }

  /** A name has a non-empty declaration exactly when it is one of the three. */
  lemma DeclarationNonEmpty(name: string, duration: string, easing: string)
    ensures Declaration(name, duration, easing) != "" <==> Known(name)
  {
  }

  /** Every known name's declaration is the name, the positioning duration in
      seconds and then the positioning easing, except that background-color
      carries no easing, so its declaration does not depend on the easing. */
  lemma DeclarationLaw(name: string, duration: string, easing: string)
    requires Known(name)
    ensures Declaration(name, duration, easing) ==
            name + " " + duration + "s" + (if name == "background-color" then "" else " " + easing)
  {
    if name == "left" {
      assert "left " + duration + "s " + easing == name + " " + duration + "s" + (" " + easing);
    } else if name == "width" {
      assert "width " + duration + "s " + easing == name + " " + duration + "s" + (" " + easing);
    } else {
      assert "background-color " + duration + "s" == name + " " + duration + "s" + "";
    }
  }

  /** Different known names give different declarations, so removing one
      name's declaration cannot hit another's. */
  lemma DeclarationsDistinct(a: string, b: string, duration: string, easing: string)
    requires Known(a) && Known(b) && a != b
    ensures Declaration(a, duration, easing) != Declaration(b, duration, easing)
  {
    var da := Declaration(a, duration, easing);
    var db := Declaration(b, duration, easing);
    assert da[0] == a[0] && db[0] == b[0];
  }
}
