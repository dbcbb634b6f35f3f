/** The on-duty (OD) application form: toggling the selected periods, and
    the checks and request body of a submission. Dates are abstract stamps;
    the date pickers, rendering and the history list are not modelled. */
module OdApply {
  import opened Common

  /** The form's state. */
  datatype OdForm = OdForm(fromDate: Stamp, toDate: Stamp, reason: string, isFullDay: bool, selected: seq<nat>)

  datatype OdType = FullDay | PeriodWise

  /** The JSON body posted to the OD endpoint. */
  datatype OdPayload = OdPayload(fromDate: Stamp, toDate: Stamp, reason: string, odType: OdType, periods: seq<nat>)

  /** What pressing submit leads to: an error alert and no request, or a
      request with this body. */
  datatype Submission = Refused(message: string) | Post(payload: OdPayload)

  const MissingReasonMessage := "Please provide a reason"
  const MissingPeriodsMessage := "Please select at least one period"
  const SubmittedMessage := "OD Request Submitted"
  const FailedMessage := "Failed to apply"

  /** The selection without any occurrence of `p`, order kept. */
  function RemoveAll(s: seq<nat>, p: nat): (r: seq<nat>)
    ensures forall x :: x in r <==> x in s && x != p
    ensures |r| <= |s|
  {
    if |s| == 0 then []
    else if s[0] == p then RemoveAll(s[1..], p)
    else [s[0]] + RemoveAll(s[1..], p)
  }

  /** Tapping period `p`: a selected period is unselected (every occurrence
      removed), an unselected one is appended. */
  function TogglePeriod(selected: seq<nat>, p: nat): (r: seq<nat>)
    ensures p in selected ==> p !in r && forall x :: x != p ==> (x in r <==> x in selected)
    ensures p !in selected ==> r == selected + [p]
  {
    if p in selected then RemoveAll(selected, p) else selected + [p]
  }

  /** Removing a value keeps the remaining ones free of repetitions. */
  lemma {:induction false} RemoveAllKeepsNoDuplicates(s: seq<nat>, p: nat)
    requires NoDuplicates(s)
    ensures NoDuplicates(RemoveAll(s, p))
  {
    if |s| > 0 {
      var tail := s[1..];
      assert NoDuplicates(tail) by {
        forall i, j | 0 <= i < j < |tail| ensures tail[i] != tail[j] {
          assert tail[i] == s[i + 1] && tail[j] == s[j + 1];
        }
      }
      RemoveAllKeepsNoDuplicates(tail, p);
      if s[0] != p {
        var rest := RemoveAll(tail, p);
        assert s[0] !in tail by {
          forall k | 0 <= k < |tail| ensures tail[k] != s[0] {
            assert tail[k] == s[k + 1];
          }
        }
        assert s[0] !in rest;
        var r := [s[0]] + rest;
        forall i, j | 0 <= i < j < |r| ensures r[i] != r[j] {
          assert r[j] == rest[j - 1];
          if i > 0 {
            assert r[i] == rest[i - 1];
          }
        }
      }
    }
  }

  /** A selection without repeated periods stays without them. */
  lemma ToggleKeepsNoDuplicates(selected: seq<nat>, p: nat)
    requires NoDuplicates(selected)
    ensures NoDuplicates(TogglePeriod(selected, p))
  {
    if p in selected {
      RemoveAllKeepsNoDuplicates(selected, p);
    }
  }

  /** Removing a value that is absent changes nothing. */
  lemma {:induction false} RemoveAbsent(s: seq<nat>, p: nat)
    requires p !in s
    ensures RemoveAll(s, p) == s
  {
    if |s| > 0 {
      assert s[0] != p;
      RemoveAbsent(s[1..], p);
      assert [s[0]] + s[1..] == s;
    }
  }

  /** Tapping an unselected period twice restores the selection. */
  lemma {:induction false} ToggleTwiceRestores(selected: seq<nat>, p: nat)
    requires p !in selected
    ensures TogglePeriod(TogglePeriod(selected, p), p) == selected
  {
    ToggleTwice(selected, p);
  }

  lemma {:induction false} ToggleTwice(s: seq<nat>, p: nat)
    requires p !in s
    ensures RemoveAll(s + [p], p) == s
  {
    if |s| == 0 {
      assert [p][1..] == [];
    } else {
      assert (s + [p])[0] == s[0];
      assert (s + [p])[1..] == s[1..] + [p];
      ToggleTwice(s[1..], p);
      assert [s[0]] + s[1..] == s;
    }
  }

  /** ECMAScript white space and line terminators, the characters
      `String.prototype.trim` removes. */
  predicate IsJsSpace(c: char) {
    c == '\U{9}' || c == '\U{B}' || c == '\U{C}' || c == ' ' || c == '\U{A0}' || c == '\U{FEFF}'
    || c == '\U{1680}' || ('\U{2000}' <= c <= '\U{200A}') || c == '\U{202F}' || c == '\U{205F}' || c == '\U{3000}'
    || c == '\n' || c == '\r' || c == '\U{2028}' || c == '\U{2029}'
  }

  predicate AllSpace(s: string) {
    forall k :: 0 <= k < |s| ==> IsJsSpace(s[k])
  }

  /** The first position at or after `i` that is not white space. */
  function SkipSpace(s: string, i: nat): (n: nat)
    requires i <= |s|
    ensures i <= n <= |s|
    ensures forall k :: i <= k < n ==> IsJsSpace(s[k])
    ensures n < |s| ==> !IsJsSpace(s[n])
    decreases |s| - i
  {
    if i < |s| && IsJsSpace(s[i]) then SkipSpace(s, i + 1) else i
  }

  /** Walking back from `j`, but not past `lo`: the end of the last
      character that is not white space. */
  function SkipSpaceBack(s: string, lo: nat, j: nat): (n: nat)
    requires lo <= j <= |s|
    ensures lo <= n <= j
    ensures forall k :: n <= k < j ==> IsJsSpace(s[k])
    ensures lo < n ==> !IsJsSpace(s[n - 1])
  {
    if lo < j && IsJsSpace(s[j - 1]) then SkipSpaceBack(s, lo, j - 1) else j
  }

  /** `String.prototype.trim`: white space removed from both ends. */
  function Trim(s: string): (r: string)
    ensures |r| <= |s|
    ensures |r| > 0 ==> !IsJsSpace(r[0]) && !IsJsSpace(r[|r| - 1])
  {
    var i := SkipSpace(s, 0);
    s[i..SkipSpaceBack(s, i, |s|)]
  }

  /** The trimmed string is a slice of the original, and everything cut off
      on either side is white space. */
  lemma TrimCutsOnlySpace(s: string) returns (i: nat, j: nat)
    ensures i <= j <= |s| && Trim(s) == s[i..j]
    ensures forall k :: 0 <= k < i ==> IsJsSpace(s[k])
    ensures forall k :: j <= k < |s| ==> IsJsSpace(s[k])
  {
    i := SkipSpace(s, 0);
    j := SkipSpaceBack(s, i, |s|);
  }

  /** The blank-reason test: the trimmed reason is empty exactly when the
      reason is nothing but white space. */
  lemma TrimEmptyIffBlank(s: string)
    ensures Trim(s) == "" <==> AllSpace(s)
  {
    var i, j := TrimCutsOnlySpace(s);
    if Trim(s) != "" {
      assert Trim(s)[0] == s[i];
    }
  }

  /** Pressing submit: a blank reason is refused first, then a per-period
      application without periods; otherwise the body is built. */
  function Submit(form: OdForm): (out: Submission)
    ensures AllSpace(form.reason) ==> out == Refused(MissingReasonMessage)
    ensures !AllSpace(form.reason) && !form.isFullDay && |form.selected| == 0 ==> out == Refused(MissingPeriodsMessage)
    ensures out.Post? <==> !AllSpace(form.reason) && (form.isFullDay || |form.selected| > 0)
    ensures out.Post? ==>
      && out.payload.fromDate == form.fromDate
      && out.payload.reason == form.reason
      && (form.isFullDay ==> out.payload.odType == FullDay && out.payload.periods == [] && out.payload.toDate == form.toDate)
      && (!form.isFullDay ==> out.payload.odType == PeriodWise && out.payload.periods == form.selected
                              && out.payload.toDate == form.fromDate)
  {
    TrimEmptyIffBlank(form.reason);
    if Trim(form.reason) == "" then Refused(MissingReasonMessage)
    else if !form.isFullDay && |form.selected| == 0 then Refused(MissingPeriodsMessage)
    else Post(OdPayload(
      form.fromDate,
      if form.isFullDay then form.toDate else form.fromDate,
      form.reason,
      if form.isFullDay then FullDay else PeriodWise,
      if form.isFullDay then [] else form.selected))
  }

  /** After the request settles: on success the reason and the selection are
      cleared, on failure the form is kept for another try. */
  function Settle(form: OdForm, accepted: bool): (out: (string, OdForm))
    ensures accepted ==> out.0 == SubmittedMessage && out.1.reason == "" && out.1.selected == []
    ensures accepted ==> out.1.fromDate == form.fromDate && out.1.toDate == form.toDate && out.1.isFullDay == form.isFullDay
    ensures !accepted ==> out == (FailedMessage, form)
  {
    if accepted then (SubmittedMessage, form.(reason := "", selected := [])) else (FailedMessage, form)
  }

  /** After an accepted submission the form is cleared, so pressing submit
      again without typing a new reason is refused; after a failure the same
      request is built again. */
  lemma SettleThenSubmit(form: OdForm, accepted: bool)
    ensures accepted ==> Submit(Settle(form, accepted).1) == Refused(MissingReasonMessage)
    ensures !accepted ==> Submit(Settle(form, accepted).1) == Submit(form)
  {
  }

  /** The selection after a run of taps, starting from `selected`. */
  function ToggleAll(selected: seq<nat>, taps: seq<nat>): seq<nat>
    decreases |taps|
  {
    if |taps| == 0 then selected else ToggleAll(TogglePeriod(selected, taps[0]), taps[1..])
  }

  /** Any run of taps keeps a selection without repeats free of them. */
  lemma {:induction false} TapsKeepNoDuplicates(selected: seq<nat>, taps: seq<nat>)
    requires NoDuplicates(selected)
    ensures NoDuplicates(ToggleAll(selected, taps))
    decreases |taps|
  {
    if |taps| > 0 {
      ToggleKeepsNoDuplicates(selected, taps[0]);
      TapsKeepNoDuplicates(TogglePeriod(selected, taps[0]), taps[1..]);
    }
  }

  /** The screen starts with nothing selected and only ever changes the
      selection by taps (a successful submission resets it to empty), so a
      posted per-period application covers one day and at least one period,
      and lists no period twice. */
  lemma PeriodApplicationIsOneDay(form: OdForm, taps: seq<nat>)
    requires form.selected == ToggleAll([], taps)
    requires Submit(form).Post? && Submit(form).payload.odType == PeriodWise
    ensures Submit(form).payload.fromDate == Submit(form).payload.toDate
    ensures |Submit(form).payload.periods| > 0
    ensures NoDuplicates(Submit(form).payload.periods)
  {
    TapsKeepNoDuplicates([], taps);
  }
}
