/** `isHidden(hideInput, field)`: whether the picker hides one model's
    input field. */
module Hidden {

  /** `hideInput` is either a flag for every field or a list of field keys. */
  datatype HideInput = All(hidden: bool) | Fields(keys: seq<string>)

  function IsHidden(hideInput: HideInput, field: string): (r: bool)
    ensures hideInput == All(true) ==> r
    ensures hideInput == All(false) ==> !r
    ensures hideInput.Fields? ==> (r <==> exists i :: 0 <= i < |hideInput.keys| && hideInput.keys[i] == field)
  {
    match hideInput
    case Fields(keys) => field in keys
    case All(hidden) => hidden
  }

  /** An empty list hides nothing. */
  lemma EmptyListHidesNothing(field: string)
    ensures !IsHidden(Fields([]), field)
  {
  }

  /** Only the set of listed keys matters, not their order or repetitions. */
  lemma OnlyTheSetOfKeysMatters(xs: seq<string>, ys: seq<string>, field: string)
    requires forall k :: k in xs <==> k in ys
    ensures IsHidden(Fields(xs), field) == IsHidden(Fields(ys), field)
  {
  }
}
