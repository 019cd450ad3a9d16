# Seminar date selection: the claim table

A single Dash page lets invitees to a seminar pick one of the still-open
dates and claim it by typing their name. The dates live in a two-column CSV
(`Date`, `Name`) in a cloud bucket. On page load the page lists the dates of
the rows that have a date and no name and preselects the first of them. On
submit it reads the whole CSV again, finds the first row whose `Date` equals
the selected date, writes the entered name into that row's `Name` cell and
writes the whole CSV back. It then hides the form behind a thank-you message.

This project models that table logic as pure functions over a
`seq<Row>`, with `Row = Row(date: Option<string>, name: Option<string>)`:

- `wrappers.dfy` (`Wrappers`): `Option` and `Result`.
- `sheet.dfy` (`Sheet`): rows, the table, and the two row masks: `Available`
  for the load filter and `Matches` for the date lookup.
- `availability.dfy` (`Availability`): `load_data` as `AvailableDates`, with
  a reference definition by positions. It also holds `update_options` as
  `Options`, `Preselect` and `UpdateOptions`.
- `claim.dfy` (`ClaimCommit`): the read-modify-write of `update_sheet`. The
  parts are the first-match lookup, the one-cell update and the claim itself.
  The claim returns `Result<Table, ClaimError>`.
- `claim_properties.dfy` (`ClaimProperties`): the lost update of two
  sequential claims, and how a claim changes the list of open dates.
- `callback.dfy` (`SheetCallback`): `update_sheet` as a whole. It covers the
  click count, the two page states `Selecting` and `Confirmed`, the three
  outputs, and which table, if any, is written to the store.

Modelling choices:

- A missing cell is `None`. A cell read back empty is NaN, so "no name" is
  exactly `isna()`, which is what the code tests (application.py:22).
- pandas compares NaN unequal to everything. `Series == None` is false on
  every row. So `Matches` needs both the row's date and the selection to be
  present. A claim with no selected date always fails.
- `.index[0]` yields an index label. `read_csv` gives the frame a 0-based
  range index, so the label is the row position.
- The entered name is written as given, including `None` when the input box
  was never touched. Such a claim leaves the row open, or reopens it if it
  was claimed, and the page still shows the thank-you message
  (`ClaimUpdatesAvailability`).
- Dates need not be distinct. `.index[0]` takes the first label of the `==`
  mask (application.py:69), which may be a claimed row while a later row with
  the same date is open, so a repeated date can overwrite an earlier claim
  (`RepeatedDateOverwritesEarlierClaim`). The model keeps that behaviour as
  written.
- The store is a value. `UpdateSheet` takes the table a read would return,
  and reports the table it writes as `saved`. A raise happens before the
  write, so a failed claim writes nothing.

## Model

| member | source | states |
|---|---|---|
| Sheet.Available | application.py:22 | defines the `isna() & notna()` mask: a row is kept when its Name is missing and its Date is present |
| Sheet.Matches | application.py:69 | defines the `==` mask: a row matches when its Date equals the selected date, and neither a NaN Date nor a None selection ever compares equal |
| Availability.AvailableDates | application.py:18-24 | the available dates are never more than the table's rows |
| Availability.AvailablePositions | application.py:22 | the positions kept by the mask: each is a row with missing Name and present Date, they increase strictly, and every such row is among them |
| Availability.AvailableDatesInTableOrder | application.py:22-24 | the k-th date returned is the Date of the k-th available row, and there are exactly as many dates as available rows |
| Availability.AvailableDatesMembership | application.py:22-24 | a date is returned iff some row with a missing Name carries that Date |
| Availability.Options | application.py:52 | one radio item per date, in the same order, with value the date and caption the date after one space |
| Availability.Preselect | application.py:53 | the preselected value is the first date when there is one, and nothing exactly when the list is empty |
| Availability.UpdateOptions | application.py:50-54 | the option values are the available dates in order; a value is preselected iff there are options, and it is the first option's value |
| Availability.OfferedIffAvailable | application.py:50-54 | a radio value is offered iff it is the Date of an unclaimed row |
| Availability.PreselectIsFirstAvailable | application.py:50-54 | nothing is preselected iff no row is available; otherwise the preselection is the Date of the first available row in table order |
| ClaimCommit.FirstMatch | application.py:69 | the lookup yields the first row in table order whose present Date equals the selection, or nothing when no row matches |
| ClaimCommit.SetName | application.py:71 | the update replaces the Name of that one row and leaves its Date, the row count and every other row unchanged |
| ClaimCommit.Claim | application.py:66-73 | the claim fails iff no row's Date equals the selection (always when nothing is selected); on success the first matching row, and only it, gets the entered name, whatever name it had |
| ClaimProperties.ClaimKeepsFirstMatch | application.py:69-71 | after a claim the same selection still finds the same row |
| ClaimProperties.LostUpdate | application.py:71 | claiming a date that is already claimed succeeds, and the result is the table as if only the second claim had happened |
| ClaimProperties.ClaimUpdatesAvailability | application.py:69-71 | after a claim the claimed row is available iff no name was entered; the open list changes only at that row's place, and no earlier row, open or claimed, carries the date |
| ClaimProperties.ClaimClosesDate | application.py:69-71 | with distinct dates, a named claim removes exactly the claimed date from the open list |
| ClaimProperties.OfferedDateIsClaimable | application.py:69 | every offered date can be claimed on the table it came from, and with distinct dates that claim overwrites no name |
| SheetCallback.Render | application.py:74-78 | the button and the input group are hidden together, exactly in the confirmed state, which is also the only state with a message, and that message is "Thank you for your selection!" |
| SheetCallback.UpdateSheet | application.py:64-78 | with no click the form stays, the outputs are two empty styles and an empty message, and nothing is written; after a click the callback fails iff no row matches, and otherwise confirms, hides both components behind the thank-you message, and writes the claimed table |
| SheetCallback.StoreAfter | application.py:69-73 | a saved table becomes the store; a failed callback leaves the store as it was, because the raise comes before the write; the store changes only to a table a successful callback saved |
| SheetCallback.NoClickIgnoresStore | application.py:65-78 | with no click the response does not depend on the store and the store is unchanged |
| SheetCallback.CallbackPreservesTableShape | application.py:65-73 | the callback never adds, drops or re-dates rows, changes at most one row, and changes the store only when it confirms |
| SheetCallback.SecondSubmitOverwrites | application.py:66-75 | two sequential submits of the same date both confirm, and the store ends as if only the second had run |
| SheetCallback.PreselectedSubmitConfirms | application.py:53-75 | submitting the preselected date against the same table always confirms; with distinct dates it claims the first open row and nothing else |
| SheetCallback.RepeatedDateOverwritesEarlierClaim | application.py:69-71 | with the rows (D, Alice), (D, missing) the page offers and preselects D, and submitting Bob overwrites Alice's row while the open row stays open |

## Left out

- The Google Cloud Storage client and bucket (application.py:7-16) are left out. So are `read_csv` and `to_csv` (application.py:20, 67, 73). The store is a table value, and a failed read or write is not modelled.
- CSV round-trip quirks are left out, for example an empty-string name read back as NaN. They are pandas parsing behaviour.
- Columns other than `Date` and `Name` are not modelled. The code never names them and writes them back as read.
- The Dash layout, callback registration, styling and server start (application.py:26-49, 56-63, 80-81) are UI wiring.
- The error a raised callback shows is not modelled. The code defines no error state; the model returns `Failure(NotFound)`.
- Cross-client concurrency is not modelled. The lost update appears only as two sequential claims (`LostUpdate`, `SecondSubmitOverwrites`).
- Availability.AvailableDates: its own contract states only the length bound. The exact contents and order are stated by `AvailableDatesInTableOrder` and `AvailableDatesMembership`.
