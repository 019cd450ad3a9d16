/**
 What a claim does to the rest of the page: the lost update of two
 sequential claims, and how a claim changes the list of open dates.
 */
module ClaimProperties {
  import opened Wrappers
  import opened Sheet
  import opened Availability
  import opened ClaimCommit

  /** No two rows share a present Date. The page never enforces this. */
  predicate DistinctDates(t: Table) {
    forall i, j :: 0 <= i < |t| && 0 <= j < |t| && i != j && t[i].date.Some? ==> t[i].date != t[j].date
  }

  /** A successful claim leaves every Date where it was, so a second claim
      of the same selection lands on the same row. */
  lemma ClaimKeepsFirstMatch(t: Table, selected: Option<string>, entered: Option<string>)
    requires Claim(t, selected, entered).Success?
    ensures FirstMatch(t, selected).Some?
    ensures FirstMatch(Claim(t, selected, entered).value, selected) == FirstMatch(t, selected)
  {
  }

  /** Last writer wins: claiming an already claimed date succeeds, and the
      table is as if only the second claim had happened; the first name
      is gone. */
  lemma {:induction false} LostUpdate(t: Table, selected: Option<string>, first: Option<string>, second: Option<string>)
    requires Claim(t, selected, first).Success?
    ensures Claim(Claim(t, selected, first).value, selected, second) == Claim(t, selected, second)
  {
    var t1 := Claim(t, selected, first).value;
    ClaimKeepsFirstMatch(t, selected, first);
    var i := FirstMatch(t, selected).value;
    assert t1[i := Row(t1[i].date, second)] == t[i := Row(t[i].date, second)];
  }

  /** The filter over a table split around row `i`. */
  lemma AvailableDatesAround(t: Table, i: nat)
    requires i < |t|
    ensures AvailableDates(t) == AvailableDates(t[..i]) + AvailableDates([t[i]]) + AvailableDates(t[i + 1..])
  {
    SplitAt(t, i);
    AvailableDatesAppend3(t[..i], [t[i]], t[i + 1..]);
  }

  lemma SplitAt(t: Table, i: nat)
    requires i < |t|
    ensures t == t[..i] + [t[i]] + t[i + 1..]
  {
  }

  lemma AvailableDatesAppend3(p: Table, m: Table, s: Table)
    ensures AvailableDates(p + m + s) == AvailableDates(p) + AvailableDates(m) + AvailableDates(s)
  {
    AvailableDatesAppend(p + m, s);
    AvailableDatesAppend(p, m);
  }

  /** A claim with a name takes the claimed row out of the open list and
      changes nothing else in it; a claim without a name (an untouched
      input box) leaves the row open, or reopens it if it was claimed. */
  lemma ClaimUpdatesAvailability(t: Table, d: string, entered: Option<string>)
    requires Claim(t, Some(d), entered).Success?
    ensures FirstMatch(t, Some(d)).Some?
    ensures var i := FirstMatch(t, Some(d)).value;
      var t' := Claim(t, Some(d), entered).value;
      && Available(t'[i]) == entered.None?
      && AvailableDates(t) == AvailableDates(t[..i]) + (if Available(t[i]) then [d] else []) + AvailableDates(t[i + 1..])
      && AvailableDates(t') == AvailableDates(t[..i]) + (if entered.None? then [d] else []) + AvailableDates(t[i + 1..])
      && (forall j :: 0 <= j < i ==> t[j].date != Some(d))
      && d !in AvailableDates(t[..i])
  {
    var i := FirstMatch(t, Some(d)).value;
    var t' := Claim(t, Some(d), entered).value;
    assert IsFirstMatch(t, Some(d), i);
    assert ClaimedAt(t, t', i, entered);
    assert t[i].date == Some(d);
    AvailableDatesAround(t, i);
    assert AvailableDates([t[i]]) == (if Available(t[i]) then [d] else []) by {
      assert [t[i]][1..] == [];
    }
    AvailableDatesAround(t', i);
    assert AvailableDates([t'[i]]) == (if entered.None? then [d] else []) by {
      assert [t'[i]][1..] == [];
    }
    assert t'[..i] == t[..i];
    assert t'[i + 1..] == t[i + 1..];
    AvailableDatesMembership(t[..i], d);
  }

  /** On a table with distinct dates, a named claim removes exactly the
      claimed date from the open list. An empty name is a present value
      here; in the program it is written as an empty cell, read back as
      NaN, and the date reopens on the next load. */
  lemma ClaimClosesDate(t: Table, d: string, name: string)
    requires DistinctDates(t)
    requires Claim(t, Some(d), Some(name)).Success?
    ensures forall e :: e in AvailableDates(Claim(t, Some(d), Some(name)).value) <==> e in AvailableDates(t) && e != d
  {
    var i := FirstMatch(t, Some(d)).value;
    var t' := Claim(t, Some(d), Some(name)).value;
    ClaimUpdatesAvailability(t, d, Some(name));
    forall e
      ensures e in AvailableDates(t') <==> e in AvailableDates(t) && e != d
    {
      AvailableDatesMembership(t', e);
      AvailableDatesMembership(t, e);
    }
  }

  /** Every offered date can be claimed on the table it was read from,
      and with distinct dates that claim does not overwrite a name. */
  lemma OfferedDateIsClaimable(t: Table, d: string, entered: Option<string>)
    requires d in AvailableDates(t)
    ensures Claim(t, Some(d), entered).Success?
    ensures DistinctDates(t) ==> t[FirstMatch(t, Some(d)).value].name.None?
  {
    AvailableDatesMembership(t, d);
  }
}
