/**
 The submit callback `update_sheet` and the page state it drives. The
 store is passed in as the table a read would return; the response says
 whether the page switched to its thank-you state and which table, if any,
 was written back.
 */
module SheetCallback {
  import opened Wrappers
  import opened Sheet
  import opened ClaimCommit
  import opened Availability
  import opened ClaimProperties

  /** The two page states: the form is shown, or it is hidden behind the
      thank-you message. */
  datatype Page = Selecting | Confirmed

  /** A component style: `{}` shows it, `{'display': 'none'}` hides it. */
  datatype Display = Shown | Hidden

  /** The three callback outputs: button style, input-group style, message. */
  datatype Outputs = Outputs(button: Display, inputGroup: Display, message: string)

  const ThankYou: string := "Thank you for your selection!"

  /** What the page shows in each state. */
  function Render(p: Page): (o: Outputs)
    ensures o.button == o.inputGroup
    ensures o.inputGroup.Hidden? <==> p.Confirmed?
    ensures o.message != "" <==> p.Confirmed?
    ensures p.Confirmed? ==> o.message == ThankYou
  {
    match p
    case Selecting => Outputs(Shown, Shown, "")
    case Confirmed => Outputs(Hidden, Hidden, ThankYou)
  }

  /** The callback's effect: the resulting page and the table written to
      the store (`None` when nothing is written). */
  datatype Response = Response(page: Page, saved: Option<Table>)

  /** `update_sheet(n_clicks, selected_date, entered_name)` against a store
      holding `stored`. */
  function UpdateSheet(nClicks: int, selected: Option<string>, entered: Option<string>, stored: Table): (r: Result<Response, ClaimError>)
    ensures nClicks <= 0 ==> r == Success(Response(Selecting, None))
    ensures nClicks <= 0 ==> Render(r.value.page) == Outputs(Shown, Shown, "")
    ensures nClicks > 0 && r.Success? ==> Render(r.value.page) == Outputs(Hidden, Hidden, ThankYou)
    ensures nClicks > 0 ==> (r.Failure? <==> forall j :: 0 <= j < |stored| ==> !Matches(stored[j], selected))
    ensures nClicks > 0 && r.Success? ==>
      && r.value.page == Confirmed
      && r.value.saved.Some?
      && exists i :: IsFirstMatch(stored, selected, i) && ClaimedAt(stored, r.value.saved.value, i, entered)
  {
    if nClicks > 0 then
      match Claim(stored, selected, entered)
      case Failure(e) => Failure(e)
      case Success(t') => Success(Response(Confirmed, Some(t')))
    else
      Success(Response(Selecting, None))
  }

  /** The store's content once the callback has run: the saved table if
      one was written, the old one otherwise (a raise happens before the
      write). */
  function StoreAfter(stored: Table, r: Result<Response, ClaimError>): (s: Table)
    ensures r.Failure? ==> s == stored
    ensures r.Success? && r.value.saved.Some? ==> s == r.value.saved.value
    ensures s != stored ==> r.Success? && r.value.saved == Some(s)
  {
    if r.Success? && r.value.saved.Some? then r.value.saved.value else stored
  }

  /** Before any click the store is not consulted: the response is the
      same whatever it holds. */
  lemma NoClickIgnoresStore(nClicks: int, selected: Option<string>, entered: Option<string>, a: Table, b: Table)
    requires nClicks <= 0
    ensures UpdateSheet(nClicks, selected, entered, a) == UpdateSheet(nClicks, selected, entered, b)
    ensures StoreAfter(a, UpdateSheet(nClicks, selected, entered, a)) == a
  {
  }

  /** Whatever happens, the store keeps its rows and Dates, and at most
      one Name changes; it changes only on a confirmed claim. */
  lemma CallbackPreservesTableShape(nClicks: int, selected: Option<string>, entered: Option<string>, stored: Table)
    ensures var r := UpdateSheet(nClicks, selected, entered, stored);
      var after := StoreAfter(stored, r);
      && |after| == |stored|
      && (forall j :: 0 <= j < |stored| ==> after[j].date == stored[j].date)
      && (after != stored ==> r.Success? && r.value.page == Confirmed)
      && (forall j, k :: 0 <= j < k < |stored| && after[j] != stored[j] ==> after[k] == stored[k])
  {
  }

  /** Two submits of the same date, one after the other, each reading
      what the previous one wrote: both are confirmed, and the store ends
      as if only the second had happened. */
  lemma SecondSubmitOverwrites(n1: int, n2: int, selected: Option<string>, first: Option<string>, second: Option<string>, stored: Table)
    requires n1 > 0 && n2 > 0
    requires UpdateSheet(n1, selected, first, stored).Success?
    ensures var t1 := StoreAfter(stored, UpdateSheet(n1, selected, first, stored));
      && UpdateSheet(n2, selected, second, t1).Success?
      && StoreAfter(t1, UpdateSheet(n2, selected, second, t1)) == StoreAfter(stored, UpdateSheet(n2, selected, second, stored))
  {
    LostUpdate(stored, selected, first, second);
  }

  /** Submitting the preselected date on the table the options came from
      confirms; when dates are distinct, the claimed row is the first open
      one. */
  lemma PreselectedSubmitConfirms(nClicks: int, entered: Option<string>, stored: Table)
    requires nClicks > 0
    requires UpdateOptions(stored).1.Some?
    ensures var r := UpdateSheet(nClicks, UpdateOptions(stored).1, entered, stored);
      && r.Success? && r.value.page == Confirmed
      && (DistinctDates(stored) ==>
            exists i :: 0 <= i < |stored| && Available(stored[i])
              && (forall j :: 0 <= j < i ==> !Available(stored[j]))
              && ClaimedAt(stored, r.value.saved.value, i, entered))
  {
    PreselectIsFirstAvailable(stored);
    var selected := UpdateOptions(stored).1;
    var i :| 0 <= i < |stored| && Available(stored[i]) && stored[i].date == selected
      && forall j :: 0 <= j < i ==> !Available(stored[j]);
    assert Matches(stored[i], selected);
    if DistinctDates(stored) {
      assert IsFirstMatch(stored, selected, i);
    }
  }

  /** With a repeated date the lookup stops at the first row carrying it,
      even when that row is already claimed: the earlier speaker's name is
      overwritten and the open row stays open. */
  lemma RepeatedDateOverwritesEarlierClaim()
    ensures var stored := [Row(Some("D"), Some("Alice")), Row(Some("D"), None)];
      var r := UpdateSheet(1, UpdateOptions(stored).1, Some("Bob"), stored);
      && UpdateOptions(stored).1 == Some("D")
      && r.Success?
      && r.value.saved == Some([Row(Some("D"), Some("Bob")), Row(Some("D"), None)])
  {
    var stored := [Row(Some("D"), Some("Alice")), Row(Some("D"), None)];
    assert stored[1..] == [Row(Some("D"), None)];
    assert AvailableDates(stored) == ["D"];
    assert FirstMatch(stored, Some("D")) == Some(0);
    assert SetName(stored, 0, Some("Bob")) == [Row(Some("D"), Some("Bob")), Row(Some("D"), None)];
  }
}
