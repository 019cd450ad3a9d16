/**
 The read side of the page: which dates are still open (`load_data`) and
 the radio choices built from them (`update_options`).
 */
module Availability {
  import opened Wrappers
  import opened Sheet

  /** The dates `load_data` returns: the Date of every available row, in
      table order. */
  function AvailableDates(t: Table): (r: seq<string>)
    ensures |r| <= |t|
  {
    if |t| == 0 then []
    else if Available(t[0]) then [t[0].date.value] + AvailableDates(t[1..])
    else AvailableDates(t[1..])
  }

  /** Reference definition of the filter: the positions, from `from` on,
      of the rows the mask keeps, each one exactly once and increasing. */
  function AvailablePositions(t: Table, from: nat): (ix: seq<nat>)
    requires from <= |t|
    ensures forall k :: 0 <= k < |ix| ==> from <= ix[k] < |t| && Available(t[ix[k]])
    ensures forall k, l :: 0 <= k < l < |ix| ==> ix[k] < ix[l]
    ensures forall i :: from <= i < |t| && Available(t[i]) ==> i in ix
    decreases |t| - from
  {
    if from == |t| then []
    else if Available(t[from]) then [from] + AvailablePositions(t, from + 1)
    else AvailablePositions(t, from + 1)
  }

  /** The filter keeps exactly the available rows, in table order: the
      k-th returned date is the Date of the k-th available row. */
  lemma {:induction false} AvailableDatesInTableOrder(t: Table)
    ensures |AvailableDates(t)| == |AvailablePositions(t, 0)|
    ensures forall k :: 0 <= k < |AvailableDates(t)| ==>
      AvailableDates(t)[k] == t[AvailablePositions(t, 0)[k]].date.value
  {
    SuffixMatchesPositions(t, 0);
  }

  lemma {:induction false} SuffixMatchesPositions(t: Table, from: nat)
    requires from <= |t|
    ensures |AvailableDates(t[from..])| == |AvailablePositions(t, from)|
    ensures forall k :: 0 <= k < |AvailableDates(t[from..])| ==>
      AvailableDates(t[from..])[k] == t[AvailablePositions(t, from)[k]].date.value
    decreases |t| - from
  {
    if from < |t| {
      SuffixMatchesPositions(t, from + 1);
      var dates, rest := AvailableDates(t[from..]), AvailableDates(t[from + 1..]);
      var ix, restIx := AvailablePositions(t, from), AvailablePositions(t, from + 1);
      assert t[from..][0] == t[from];
      assert t[from..][1..] == t[from + 1..];
      if Available(t[from]) {
        assert dates == [t[from].date.value] + rest;
        assert ix == [from] + restIx;
        forall k | 0 <= k < |dates|
          ensures dates[k] == t[ix[k]].date.value
        {
          if k > 0 {
            assert dates[k] == rest[k - 1];
            assert ix[k] == restIx[k - 1];
          }
        }
      } else {
        assert dates == rest;
        assert ix == restIx;
      }
    }
  }

  /** A date is offered iff some available row carries it. */
  lemma {:induction false} AvailableDatesMembership(t: Table, d: string)
    ensures d in AvailableDates(t) <==> exists i :: 0 <= i < |t| && Available(t[i]) && t[i].date == Some(d)
  {
    if |t| > 0 {
      AvailableDatesMembership(t[1..], d);
      if exists i :: 0 <= i < |t| && Available(t[i]) && t[i].date == Some(d) {
        var i :| 0 <= i < |t| && Available(t[i]) && t[i].date == Some(d);
        if i > 0 {
          assert t[1..][i - 1] == t[i];
        }
      }
    }
  }

  /** The filter distributes over concatenation of tables. */
  lemma {:induction false} AvailableDatesAppend(a: Table, b: Table)
    ensures AvailableDates(a + b) == AvailableDates(a) + AvailableDates(b)
  {
    if |a| > 0 {
      AvailableDatesAppend(a[1..], b);
      assert (a + b)[1..] == a[1..] + b;
    } else {
      assert a + b == b;
    }
  }

  /** One radio item: `{'label': " " + d, 'value': d}`; `label` is a Dafny keyword, hence `caption`. */
  datatype Choice = Choice(caption: string, value: string)

  /** The radio items, one per date, in the same order. */
  function Options(dates: seq<string>): (r: seq<Choice>)
    ensures |r| == |dates|
    ensures forall k :: 0 <= k < |r| ==> r[k].value == dates[k] && r[k].caption == [' '] + dates[k]
  {
    seq(|dates|, k requires 0 <= k < |dates| => Choice([' '] + dates[k], dates[k]))
  }

  /** The preselected radio value: the first date, or nothing. */
  function Preselect(dates: seq<string>): (v: Option<string>)
    ensures v.None? <==> |dates| == 0
    ensures v.Some? ==> v.value == dates[0]
  {
    if |dates| > 0 then Some(dates[0]) else None
  }

  /** `update_options`: the radio items and their initial value. */
  function UpdateOptions(t: Table): (r: (seq<Choice>, Option<string>))
    ensures |r.0| == |AvailableDates(t)|
    ensures forall k :: 0 <= k < |r.0| ==> r.0[k].value == AvailableDates(t)[k]
    ensures r.1.Some? <==> |r.0| > 0
    ensures r.1.Some? ==> r.1.value == r.0[0].value
  {
    var dates := AvailableDates(t);
    (Options(dates), Preselect(dates))
  }

  /** A radio value is offered iff it is the date of an available row. */
  lemma OfferedIffAvailable(t: Table, v: string)
    ensures (exists c :: c in UpdateOptions(t).0 && c.value == v)
        <==> exists i :: 0 <= i < |t| && Available(t[i]) && t[i].date == Some(v)
  {
    var dates := AvailableDates(t);
    var opts := UpdateOptions(t).0;
    AvailableDatesMembership(t, v);
    if v in dates {
      var k :| 0 <= k < |dates| && dates[k] == v;
      assert opts[k] in opts;
    }
  }

  /** The preselected value is the Date of the first available row, and
      there is one exactly when something is preselected. */
  lemma {:induction false} PreselectIsFirstAvailable(t: Table)
    ensures UpdateOptions(t).1.None? <==> forall i :: 0 <= i < |t| ==> !Available(t[i])
    ensures UpdateOptions(t).1.Some? ==>
      exists i :: 0 <= i < |t| && Available(t[i]) && t[i].date == UpdateOptions(t).1
        && forall j :: 0 <= j < i ==> !Available(t[j])
  {
    AvailableDatesInTableOrder(t);
    var ix := AvailablePositions(t, 0);
    if |ix| > 0 {
      var i := ix[0];
      assert forall j :: 0 <= j < i ==> !Available(t[j]);
    } else {
      assert forall i :: 0 <= i < |t| ==> !Available(t[i]);
    }
  }
}
