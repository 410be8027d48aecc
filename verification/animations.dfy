/**
 * The animation controller's per-element rules: scroll-triggered animation
 * timing, hover effects, list staggering, live input validation, and the
 * loading screen's progress bar.
 */
module Animations {
  import opened Wrappers
  import opened JsText
  import opened EmailPattern
  import opened Draws

  // ---------------------------------------------------------------------
  // triggerAnimation

  /** ASCII white space as the DOM defines it: tab, line feed, form feed,
      carriage return and space. */
  predicate IsAsciiWhiteSpace(c: char) {
    c == '\t' || c == '\n' || c == '\U{0C}' || c == '\r' || c == ' '
  }

  /** A token `classList.add` accepts: it throws for an empty token and for
      one containing ASCII white space. */
  predicate ValidToken(t: string) {
    t != "" && forall i | 0 <= i < |t| :: !IsAsciiWhiteSpace(t[i])
  }

  /** What the timer callback does: add the classes and set the duration, or
      throw from `classList.add` before doing either. */
  datatype AnimationEffect = Applied(classes: set<string>, durationMs: int) | Threw

  /** What `triggerAnimation` schedules: after `delayMs`, the callback's effect. */
  datatype ScheduledAnimation = ScheduledAnimation(delayMs: int, effect: AnimationEffect)

  /** `triggerAnimation`: the delay is `data-delay` and the duration
      `data-duration`, read with `parseInt`; a missing or non-numeric
      attribute, or one that reads as 0, gives 0 and 600 instead. The callback
      adds `animated` and `animate-<type>`, and throws instead when the type
      contains ASCII white space. */
  function TriggerAnimation(kind: string, delayAttr: Option<string>, durationAttr: Option<string>): (a: ScheduledAnimation)
    ensures a.effect.Threw? <==> exists i | 0 <= i < |kind| :: IsAsciiWhiteSpace(kind[i])
    ensures a.effect.Applied? ==> a.effect.classes == {"animated", "animate-" + kind}
    ensures a.delayMs == IntOr(delayAttr, 0)
    ensures a.effect.Applied? ==> a.effect.durationMs == IntOr(durationAttr, 600)
    ensures a.effect.Applied? ==> a.effect.durationMs != 0
  {
    var token := "animate-" + kind;
    assert forall i | 0 <= i < |kind| :: token[8 + i] == kind[i];
    var effect := if ValidToken("animated") && ValidToken(token)
                  then Applied({"animated", token}, IntOr(durationAttr, 600))
                  else Threw;
    ScheduledAnimation(IntOr(delayAttr, 0), effect)
  }

  // ---------------------------------------------------------------------
  // applyHoverEffect

  /** The two style properties a hover effect writes; `None` is unset. */
  datatype HoverStyle = HoverStyle(transform: Option<string>, boxShadow: Option<string>)

  const HoverKinds: set<string> := {"lift", "scale", "rotate", "glow"}

  /** The value a hover kind writes on entering and on leaving. */
  function HoverValue(kind: string, entering: bool): string
    requires kind in HoverKinds
  {
    if kind == "lift" then (if entering then "translateY(-10px)" else "translateY(0)")
    else if kind == "scale" then (if entering then "scale(1.05)" else "scale(1)")
    else if kind == "rotate" then (if entering then "rotate(5deg)" else "rotate(0deg)")
    else (if entering then "0 0 30px rgba(0, 0, 0, 0.3)" else "0 4px 6px -1px rgba(0, 0, 0, 0.1)")
  }

  /** `applyHoverEffect`: `lift`, `scale` and `rotate` write the transform,
      `glow` writes the box shadow, and any other kind changes nothing. */
  function ApplyHoverEffect(style: HoverStyle, kind: string, entering: bool): (r: HoverStyle)
    ensures kind !in HoverKinds ==> r == style
    ensures kind in HoverKinds - {"glow"} ==>
              r.transform == Some(HoverValue(kind, entering)) && r.boxShadow == style.boxShadow
    ensures kind == "glow" ==>
              r.boxShadow == Some(HoverValue(kind, entering)) && r.transform == style.transform
  {
    if kind !in HoverKinds then style
    else if kind == "glow" then style.(boxShadow := Some(HoverValue(kind, entering)))
    else style.(transform := Some(HoverValue(kind, entering)))
  }

  /** Leaving undoes entering: the style ends as leaving alone would leave it,
      with the kind's neutral value. */
  lemma HoverLeaveRestores(style: HoverStyle, kind: string)
    ensures ApplyHoverEffect(ApplyHoverEffect(style, kind, true), kind, false) == ApplyHoverEffect(style, kind, false)
    ensures kind == "lift" ==> ApplyHoverEffect(style, kind, false).transform == Some("translateY(0)")
    ensures kind == "scale" ==> ApplyHoverEffect(style, kind, false).transform == Some("scale(1)")
    ensures kind == "rotate" ==> ApplyHoverEffect(style, kind, false).transform == Some("rotate(0deg)")
  {
  }

  /** The style after a run of `mouseenter` (`true`) and `mouseleave`
      (`false`) events, each applying the hover effect. */
  function HoverEvents(style: HoverStyle, kind: string, events: seq<bool>): HoverStyle
    decreases |events|
  {
    if events == [] then style
    else HoverEvents(ApplyHoverEffect(style, kind, events[0]), kind, events[1..])
  }

  /** Whatever came before, the last event alone decides the style: after any
      run of events that ends in a leave the element is back at the neutral
      value, and after one that ends in an enter it shows the hover value. */
  lemma {:induction false} HoverLastEventDecides(style: HoverStyle, kind: string, events: seq<bool>)
    requires events != []
    ensures HoverEvents(style, kind, events) == ApplyHoverEffect(style, kind, events[|events| - 1])
    decreases |events|
  {
    var next := ApplyHoverEffect(style, kind, events[0]);
    if |events| > 1 {
      HoverLastEventDecides(next, kind, events[1..]);
      assert events[1..][|events[1..]| - 1] == events[|events| - 1];
      var last := events[|events| - 1];
      assert ApplyHoverEffect(next, kind, last) == ApplyHoverEffect(style, kind, last);
    }
  }

  // ---------------------------------------------------------------------
  // staggerListItems

  /** A child of a `[data-stagger]` list: its animation delay and its classes. */
  datatype ListItem = ListItem(delayMs: Option<int>, classes: set<string>)

  /** `staggerListItems` for one list: child `i` waits `i * d` milliseconds,
      `d` being `data-stagger` (100 when missing, non-numeric or 0), and gets
      the class `stagger-item`. */
  method StaggerListItems(items: array<ListItem>, staggerAttr: Option<string>)
    modifies items
    ensures forall i | 0 <= i < items.Length ::
              items[i] == ListItem(Some(i * IntOr(staggerAttr, 100)), old(items[i].classes) + {"stagger-item"})
  {
    var delay := IntOr(staggerAttr, 100);
    var i := 0;
    while i < items.Length
      invariant 0 <= i <= items.Length
      invariant forall k | 0 <= k < i ::
                  items[k] == ListItem(Some(k * delay), old(items[k].classes) + {"stagger-item"})
      invariant forall k | i <= k < items.Length :: items[k] == old(items[k])
    {
      items[i] := ListItem(Some(i * delay), items[i].classes + {"stagger-item"});
      i := i + 1;
    }
  }

  // ---------------------------------------------------------------------
  // validateInput

  /** A `.form-input`: its `type`, its value and its classes. */
  datatype Input = Input(inputType: string, value: string, classes: set<string>)

  /** The live check on the trimmed value: the e-mail shape for `email`, a
      `.length` of at least 2 for `text`, anything non-empty otherwise. */
  predicate InputAccepted(inputType: string, value: string) {
    var v := Trim(value);
    if inputType == "email" then IsEmail(v)
    else if inputType == "text" then Length(v) >= 2
    else |v| > 0
  }

  /** `validateInput`: afterwards exactly one of `valid` and `error` is
      present, `valid` exactly when the input is accepted; no other class changes. */
  function ValidateInput(input: Input): (r: Input)
    ensures r.inputType == input.inputType && r.value == input.value
    ensures ("valid" in r.classes) != ("error" in r.classes)
    ensures "valid" in r.classes <==>
              if input.inputType == "email" then IsAtDotAddress(Trim(input.value))
              else if input.inputType == "text" then |Units(Trim(input.value))| >= 2
              else |Trim(input.value)| > 0
    ensures r.classes - {"valid", "error"} == input.classes - {"valid", "error"}
  {
    EmailIff(Trim(input.value));
    LengthUnits(Trim(input.value));
    if InputAccepted(input.inputType, input.value)
    then input.(classes := input.classes - {"error"} + {"valid"})
    else input.(classes := input.classes - {"valid"} + {"error"})
  }

  /** The live check trims the e-mail and the form check does not: an
      address that starts with a no-break space passes the first and fails
      the second. (An e-mail input strips only ASCII white space from its
      value, so the no-break space reaches both checks.) */
  lemma PaddedEmailDisagrees()
    ensures InputAccepted("email", "\U{A0}a@b.co")
    ensures !IsEmail("\U{A0}a@b.co")
  {
    var s := "\U{A0}a@b.co";
    assert LeadingWhiteSpace(s[1..]) == 0;
    assert LeadingWhiteSpace(s) == 1;
    assert s[1..] == "a@b.co";
    TrimKeepsTrimmed("a@b.co");
    assert Trim(s) == "a@b.co" by {
      assert TrailingWhiteSpace(s[1..]) == 0;
    }
    EmailComplete("a@b.co", 1, 3);
    assert IndexOf(s, '@') == Some(2);
    assert IsWhiteSpace(s[..2][0]);
  }

  // ---------------------------------------------------------------------
  // LoadingScreen.startLoading

  /** Progress after the given draws: each step adds `Math.random() * 3`. */
  function Progress(draws: seq<Unit>): (p: real)
    ensures p >= 0.0
  {
    if draws == [] then 0.0 else Progress(draws[..|draws| - 1]) + (draws[|draws| - 1] as real) * 3.0
  }

  /** Progress after the first `k + 1` steps. */
  function ProgressAfter(draws: seq<Unit>, k: nat): real
    requires k < |draws|
  {
    Progress(draws[..k + 1])
  }

  function Min(a: real, b: real): real {
    if a <= b then a else b
  }

  /** `startLoading`: step after step add to the progress and write
      `min(progress, 100)` as the bar's width; stop and finish the loading
      as soon as the progress reaches 100. Each step consumes one draw; the
      run is cut off if the draws run out first. */
  method StartLoading(draws: seq<Unit>) returns (widths: seq<real>, finished: bool)
    ensures |widths| <= |draws|
    ensures forall k | 0 <= k < |widths| :: widths[k] == Min(ProgressAfter(draws, k), 100.0)
    ensures forall k | 0 <= k < |widths| :: 0.0 <= widths[k] <= 100.0
    ensures forall k, k' | 0 <= k < k' < |widths| :: widths[k] <= widths[k']
    ensures forall k | 0 <= k < |widths| - 1 :: ProgressAfter(draws, k) < 100.0
    ensures finished <==> |widths| > 0 && Progress(draws[..|widths|]) >= 100.0
    ensures finished ==> widths[|widths| - 1] == 100.0
    ensures !finished ==> |widths| == |draws|
  {
    var progress := 0.0;
    widths := [];
    finished := false;
    var i := 0;
    while i < |draws| && !finished
      invariant 0 <= i <= |draws| && |widths| == i
      invariant progress == Progress(draws[..i])
      invariant forall k | 0 <= k < i :: widths[k] == Min(ProgressAfter(draws, k), 100.0)
      invariant forall k | 0 <= k < i - 1 :: ProgressAfter(draws, k) < 100.0
      invariant finished <==> i > 0 && progress >= 100.0
      invariant !finished ==> forall k | 0 <= k < i :: ProgressAfter(draws, k) < 100.0
    {
      assert draws[..i + 1][..i] == draws[..i];
      progress := progress + (draws[i] as real) * 3.0;
      widths := widths + [Min(progress, 100.0)];
      if progress >= 100.0 {
        finished := true;
      }
      i := i + 1;
    }
    forall k, k' | 0 <= k < k' < |widths|
      ensures widths[k] <= widths[k']
    {
      ProgressGrows(draws[..k' + 1], k + 1);
      assert draws[..k' + 1][..k + 1] == draws[..k + 1];
    }
  }

  /** Progress only grows: each step adds a non-negative amount. */
  lemma {:induction false} ProgressGrows(draws: seq<Unit>, k: nat)
    requires k <= |draws|
    ensures Progress(draws[..k]) <= Progress(draws)
    decreases |draws| - k
  {
    if k < |draws| {
      ProgressGrows(draws[..|draws| - 1], k);
      assert draws[..|draws| - 1][..k] == draws[..k];
    } else {
      assert draws[..k] == draws;
    }
  }
}
