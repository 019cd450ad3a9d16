/**
 The write side of the page: the read-modify-write that `update_sheet`
 performs once the submit button has been clicked. The store is a value:
 the claim takes the table it read and returns the table it would write.
 */
module ClaimCommit {
  import opened Wrappers
  import opened Sheet

  /** `.index[0]` on an empty selection raises IndexError; that is the
      only failure the claim itself can produce. */
  datatype ClaimError = NotFound

  /** Row `i` is the first row, in table order, whose Date equals the
      selection. */
  predicate IsFirstMatch(t: Table, selected: Option<string>, i: int) {
    0 <= i < |t| && Matches(t[i], selected)
    && forall j :: 0 <= j < i ==> !Matches(t[j], selected)
  }

  /** `t'` is `t` with only row `i`'s Name replaced by `name`. */
  predicate ClaimedAt(t: Table, t': Table, i: int, name: Option<string>) {
    && |t'| == |t|
    && 0 <= i < |t|
    && t'[i].date == t[i].date
    && t'[i].name == name
    && forall j :: 0 <= j < |t| && j != i ==> t'[j] == t[j]
  }

  /** The position `df[df['Date'] == selected].index[0]` names, if any.
      `read_csv` gives the frame a 0-based range index, so the index
      label is the row position. */
  function FirstMatch(t: Table, selected: Option<string>): (r: Option<nat>)
    ensures r.Some? ==> IsFirstMatch(t, selected, r.value)
    ensures r.None? ==> forall j :: 0 <= j < |t| ==> !Matches(t[j], selected)
  {
    if |t| == 0 then None
    else if Matches(t[0], selected) then Some(0)
    else match FirstMatch(t[1..], selected)
      case None => None
      case Some(k) => Some(k + 1)
  }

  /** `df.loc[i, 'Name'] = name`: a point update of one cell. */
  function SetName(t: Table, i: nat, name: Option<string>): (t': Table)
    requires i < |t|
    ensures ClaimedAt(t, t', i, name)
  {
    t[i := Row(t[i].date, name)]
  }

  /** The claim: find the first row with the selected Date and overwrite
      its Name unconditionally, or fail before anything is written. */
  function Claim(t: Table, selected: Option<string>, entered: Option<string>): (r: Result<Table, ClaimError>)
    ensures r.Failure? <==> forall j :: 0 <= j < |t| ==> !Matches(t[j], selected)
    ensures selected.None? ==> r.Failure?
    ensures r.Success? ==> exists i :: IsFirstMatch(t, selected, i) && ClaimedAt(t, r.value, i, entered)
    ensures forall i :: IsFirstMatch(t, selected, i) ==> r.Success? && ClaimedAt(t, r.value, i, entered)
  {
    match FirstMatch(t, selected)
    case None => Failure(NotFound)
    case Some(i) => Success(SetName(t, i, entered))
  }
}
