/** What the bug card component displays for a bug: a colour for the
    severity, a label for the status, and fallbacks for the fields that
    are missing. The rendered markup itself is reduced to the values it
    shows. */
module BugCard {
  import opened Wrappers
  import opened Js
  import opened Bugs
  import Strings
  import Numbers
  import Validators

  const HighColor := "#ff4444"
  const MediumColor := "#ff9800"
  const LowColor := "#4caf50"
  const DefaultColor := "#999"

  /** `getSeverityColor`: a `switch` on the severity, which compares with
      `===`. */
  function SeverityColor(severity: JsValue): (c: string)
    ensures c == HighColor || c == MediumColor || c == LowColor || c == DefaultColor
    ensures severity == Str("high") ==> c == HighColor
    ensures severity == Str("medium") ==> c == MediumColor
    ensures severity == Str("low") ==> c == LowColor
  {
    match severity
    case Str(s) =>
      if s == "high" then HighColor
      else if s == "medium" then MediumColor
      else if s == "low" then LowColor
      else DefaultColor
    case _ => DefaultColor
  }

  /** `getStatusLabel`: the three known statuses get a display label; any
      other value is shown as it is. */
  function StatusLabel(status: JsValue): (l: JsValue)
    ensures l == status || l.Str?
    ensures status == Str("open") ==> l == Str("Open")
    ensures status == Str("in-progress") ==> l == Str("In Progress")
    ensures status == Str("closed") ==> l == Str("Closed")
  {
    match status
    case Str(s) =>
      if s == "open" then Str("Open")
      else if s == "in-progress" then Str("In Progress")
      else if s == "closed" then Str("Closed")
      else status
    case _ => status
  }

  /** A severity gets a colour of its own exactly when the validator
      accepts it. */
  lemma ColorIffValidSeverity(severity: JsValue)
    ensures SeverityColor(severity) != DefaultColor <==> Validators.ValidateSeverity(severity).Valid?
  {
  }

  /** The three colours are different, so the colour identifies an
      accepted severity. */
  lemma ColorsDistinguishSeverities(a: JsValue, b: JsValue)
    requires SeverityColor(a) != DefaultColor
    ensures SeverityColor(a) == SeverityColor(b) <==> a == b
  {
  }

  /** A status is relabelled exactly when the validator accepts it. */
  lemma LabelIffValidStatus(status: JsValue)
    ensures StatusLabel(status) != status <==> Validators.ValidateStatus(status).Valid?
  {
  }

  /** On accepted statuses the label identifies the status. */
  lemma LabelsDistinguishStatuses(a: JsValue, b: JsValue)
    requires Validators.ValidateStatus(a).Valid? && Validators.ValidateStatus(b).Valid?
    ensures StatusLabel(a) == StatusLabel(b) <==> a == b
  {
  }

  /** Outside the accepted statuses the label is not one-to-one: a stored
      status equal to a label is displayed like the status it labels. */
  lemma LabelOfLabel(s: string)
    requires s == "Open" || s == "In Progress" || s == "Closed"
    ensures StatusLabel(Str(s)) == Str(s)
    ensures exists t :: Validators.ValidateStatus(t).Valid? && StatusLabel(t) == Str(s)
  {
    if s == "Open" {
      assert StatusLabel(Str("open")) == Str(s);
    } else if s == "In Progress" {
      assert StatusLabel(Str("in-progress")) == Str(s);
    } else {
      assert StatusLabel(Str("closed")) == Str(s);
    }
  }

  /** The values the card shows. `border` is the left border style and
      `badge` the severity badge's text, coloured `badgeColor`. */
  datatype Card = Card(
    border: string,
    title: JsValue,
    description: JsValue,
    badge: string,
    badgeColor: string,
    priority: JsValue,
    status: JsValue)

  /** `TypeError` is the render failing because `toUpperCase` is called
      on a severity that is not a string; `ObjectChild` is React refusing
      to render a plain object as a child of an element. */
  datatype View = NoBugData | Shown(card: Card) | TypeError | ObjectChild

  /** What React accepts as a child: a primitive value, or an array of
      such children. A plain object makes rendering throw. */
  predicate IsRenderable(v: JsValue)
    decreases v
  {
    match v
    case Obj => false
    case Arr(elems) => forall i :: 0 <= i < |elems| ==> IsRenderable(elems[i])
    case _ => true
  }

  /** The fields the card shows as children are all renderable. */
  predicate ChildrenRenderable(b: Bug) {
    IsRenderable(b.title) && IsRenderable(b.description)
    && IsRenderable(b.priority) && IsRenderable(b.status)
  }

  /** `bug.severity ? bug.severity.toUpperCase() : 'MEDIUM'`; `None` is
      the call failing. */
  function SeverityBadge(severity: JsValue): (r: Option<string>)
    ensures r.None? <==> Truthy(severity) && !severity.Str?
    ensures r.Some? && Truthy(severity) ==> |r.value| == |severity.s| && r.value != ""
    ensures r.Some? && Truthy(severity) ==> r.value == Strings.ToUpperAscii(severity.s)
    ensures !Truthy(severity) ==> r == Some("MEDIUM")
  {
    if !Truthy(severity) then Some("MEDIUM")
    else if severity.Str? then Some(Strings.ToUpperAscii(severity.s))
    else None
  }

  /** The `BugCard` component. `bug` is `None` when the prop is missing.
      The badge is computed while the element is built, so a failing
      `toUpperCase` wins over an object child, which only fails when React
      renders the element. */
  function Render(bug: Option<Bug>): (v: View)
    ensures v.NoBugData? <==> bug.None?
    ensures v.TypeError? <==> bug.Some? && Truthy(bug.value.severity) && !bug.value.severity.Str?
    ensures v.Shown? <==>
              bug.Some? && SeverityBadge(bug.value.severity).Some? && ChildrenRenderable(bug.value)
    ensures v.Shown? ==>
              Truthy(v.card.title) && Truthy(v.card.description) && Truthy(v.card.priority)
              && v.card.badge != ""
              && v.card.border == "4px solid " + v.card.badgeColor
    ensures v.Shown? ==>
              (Truthy(bug.value.title) ==> v.card.title == bug.value.title)
              && (Truthy(bug.value.description) ==> v.card.description == bug.value.description)
              && (Truthy(bug.value.priority) ==> v.card.priority == bug.value.priority)
    ensures v.Shown? ==>
              (!Truthy(bug.value.title) ==> v.card.title == Str("Untitled"))
              && (!Truthy(bug.value.description) ==> v.card.description == Str("No description provided"))
              && (!Truthy(bug.value.priority) ==> v.card.priority == Num(3))
    ensures v.Shown? ==>
              v.card.badge == SeverityBadge(bug.value.severity).value
              && v.card.badgeColor == SeverityColor(bug.value.severity)
              && v.card.status == StatusLabel(bug.value.status)
  {
    match bug
    case None => NoBugData
    case Some(b) =>
      match SeverityBadge(b.severity)
      case None => TypeError
      case Some(badge) =>
        var color := SeverityColor(b.severity);
        var card := Card(
          "4px solid " + color,
          Or(b.title, Str("Untitled")),
          Or(b.description, Str("No description provided")),
          badge,
          color,
          Or(b.priority, Num(3)),
          StatusLabel(b.status));
        if IsRenderable(card.title) && IsRenderable(card.description)
           && IsRenderable(card.priority) && IsRenderable(card.status)
        then Shown(card)
        else ObjectChild
  }

  /** A bug whose severity passes its check never hits the `toUpperCase`
      failure, and a bug the validator accepts is shown exactly when its
      priority is renderable: the validator lets through a priority such
      as `[3, {}]`, whose string form starts with `3`. */
  lemma ValidBugRenders(b: Bug)
    ensures Validators.FieldCheck(b, Severity).Valid? ==> !Render(Some(b)).TypeError?
    ensures Validators.ValidateBugData(b).DataValid? ==> (Render(Some(b)).Shown? <==> IsRenderable(b.priority))
  {
    if Validators.ValidateBugData(b).DataValid? {
      assert Validators.FieldCheck(b, Severity).Valid?;
      assert Validators.FieldCheck(b, Title).Valid?;
      assert Validators.FieldCheck(b, Description).Valid?;
      assert Validators.FieldCheck(b, Status).Valid?;
    }
  }

  /** A validated bug whose priority is an array of an accepted number and
      an object passes `validateBugData` but cannot be rendered. */
  lemma ValidatedPriorityWithObjectThrows(b: Bug, n: nat)
    requires 1 <= n <= 5 && b.priority == Arr([Num(n), Obj])
    requires Validators.ValidateBugTitle(b.title).Valid?
    requires !Truthy(b.description) && !Truthy(b.severity) && !Truthy(b.status)
    ensures Validators.ValidateBugData(b) == Validators.DataValid
    ensures Render(Some(b)) == ObjectChild
  {
    ArrayPriorityValidated(b, n);
    ObjectPriorityThrows(b);
  }

  lemma ArrayPriorityValidated(b: Bug, n: nat)
    requires 1 <= n <= 5 && b.priority == Arr([Num(n), Obj])
    requires Validators.ValidateBugTitle(b.title).Valid?
    requires !Truthy(b.description) && !Truthy(b.severity) && !Truthy(b.status)
    ensures Validators.ValidateBugData(b) == Validators.DataValid
  {
    NumberThenObjectParses(n);
    Validators.TitleAndPriorityDecide(b);
  }

  /** A priority array holding an object stops the card from rendering,
      unless the badge fails first. */
  lemma ObjectPriorityThrows(b: Bug)
    requires b.priority.Arr? && Obj in b.priority.elems
    requires !Truthy(b.severity) || b.severity.Str?
    ensures Render(Some(b)) == ObjectChild
  {
    assert !IsRenderable(b.priority);
  }

  /** `parseInt([n, {}])` is `n`: the array prints as `n,[object Object]`. */
  lemma NumberThenObjectParses(n: nat)
    requires n <= MaxSafeInteger
    ensures ParseIntOf(Arr([Num(n), Obj])) == Some(n)
  {
    PairString(Num(n), Obj);
    DecimalThenComma(n, ToString(Obj));
  }

  /** The decimal form of `n` followed by a comma parses as `n`. */
  lemma DecimalThenComma(n: nat, o: string)
    ensures Numbers.ParseInt(Numbers.IntToDecimal(n) + [','] + o) == Some(n)
  {
    var d := Numbers.IntToDecimal(n);
    var rest := [','] + o;
    assert d + [','] + o == d + rest;
    Numbers.DecimalThenText(n, rest);
  }

  /** A two-element array of values other than `undefined` and `null`
      prints as the two string forms joined by a comma. */
  lemma PairString(x: JsValue, y: JsValue)
    requires !x.Undefined? && !x.Null? && !y.Undefined? && !y.Null?
    ensures ToString(Arr([x, y])) == ToString(x) + [','] + ToString(y)
  {
    var elems := [x, y];
    var strs := seq(|elems|, i requires 0 <= i < |elems| =>
                      if elems[i].Undefined? || elems[i].Null? then "" else ToString(elems[i]));
    assert strs == [ToString(x), ToString(y)];
    assert Strings.Join(strs[1..], ",") == ToString(y);
  }

  /** A bug without a severity is labelled MEDIUM but drawn in the grey
      default colour, not in the colour of a medium bug. */
  lemma MissingSeverityLooksMediumButGrey(b: Bug)
    requires !Truthy(b.severity)
    ensures Render(Some(b)).Shown? <==> ChildrenRenderable(b)
    ensures Render(Some(b)).Shown? ==> Render(Some(b)).card.badge == "MEDIUM"
    ensures Render(Some(b)).Shown? ==> Render(Some(b)).card.badgeColor == DefaultColor != SeverityColor(Str("medium"))
  {
  }

  /** A priority of `0` passes validation (it is skipped as falsy) and is
      displayed as the default priority 3. */
  lemma ZeroPriorityShownAsDefault(b: Bug)
    requires b.priority == Num(0)
    requires !Truthy(b.severity) || b.severity.Str?
    ensures Validators.FieldCheck(b, Priority).Valid?
    ensures Render(Some(b)).Shown? <==> ChildrenRenderable(b)
    ensures Render(Some(b)).Shown? ==> Render(Some(b)).card.priority == Num(3)
  {
  }

  /** An accepted severity is shown upper-cased, in its own colour. */
  lemma AcceptedSeverityBadge(b: Bug)
    requires Validators.ValidateSeverity(b.severity).Valid?
    ensures Render(Some(b)).Shown? <==> ChildrenRenderable(b)
    ensures Render(Some(b)).Shown? ==>
            var card := Render(Some(b)).card;
            card.badge == Strings.ToUpperAscii(b.severity.s) && card.badgeColor != DefaultColor
  {
  }
}
