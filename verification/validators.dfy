/** The server's bug-field validators: one check per field, each returning
    a verdict with a fixed message, and an aggregate check that always
    validates the title, validates the other fields only when they are
    truthy, and lists the failures in field order. */
module Validators {
  import opened Js
  import opened Bugs
  import Strings
  import Numbers

  const MaxTitleLength: nat := 100
  const MaxDescriptionLength: nat := 1000

  const TitleRequired := "Title is required and must be a string"
  const TitleEmpty := "Title cannot be empty"
  const TitleTooLong := "Title cannot exceed 100 characters"
  const DescriptionNotString := "Description must be a string"
  const DescriptionTooLong := "Description cannot exceed 1000 characters"
  const PriorityOutOfRange := "Priority must be between 1 and 5"

  const ValidSeverities: seq<string> := ["low", "medium", "high"]
  const ValidStatuses: seq<string> := ["open", "in-progress", "closed"]

  /** The messages enumerate the lists, joined with `", "`. */
  const SeverityInvalid := "Severity must be one of: low, medium, high"
  const StatusInvalid := "Status must be one of: open, in-progress, closed"

  /** `{ isValid: true }` or `{ isValid: false, error }`. */
  datatype Verdict = Valid | Invalid(error: string)

  /** `list.includes(v)`: only a string can equal a list entry. */
  predicate Includes(list: seq<string>, v: JsValue) {
    v.Str? && v.s in list
  }

  function ValidateBugTitle(title: JsValue): (v: Verdict)
    ensures v.Valid? <==>
              title.Str? && !Strings.AllWhiteSpace(title.s)
              && Strings.Utf16Length(Strings.Trim(title.s)) <= MaxTitleLength
    ensures !title.Str? || title.s == "" ==> v == Invalid(TitleRequired)
    ensures title.Str? && title.s != "" && Strings.AllWhiteSpace(title.s) ==> v == Invalid(TitleEmpty)
    ensures title.Str? && Strings.Utf16Length(Strings.Trim(title.s)) > MaxTitleLength ==> v == Invalid(TitleTooLong)
  {
    if !Truthy(title) || !title.Str? then Invalid(TitleRequired)
    else
      var trimmed := Strings.Trim(title.s);
      if Strings.Utf16Length(trimmed) == 0 then Invalid(TitleEmpty)
      else if Strings.Utf16Length(trimmed) > MaxTitleLength then Invalid(TitleTooLong)
      else Valid
  }

  function ValidateBugDescription(description: JsValue): (v: Verdict)
    ensures v.Valid? <==>
              description.Str? && description.s != ""
              && Strings.Utf16Length(description.s) <= MaxDescriptionLength
    ensures !description.Str? || description.s == "" ==> v == Invalid(DescriptionNotString)
    ensures description.Str? && Strings.Utf16Length(description.s) > MaxDescriptionLength ==> v == Invalid(DescriptionTooLong)
  {
    if !Truthy(description) || !description.Str? then Invalid(DescriptionNotString)
    else if Strings.Utf16Length(description.s) > MaxDescriptionLength then Invalid(DescriptionTooLong)
    else Valid
  }

  function ValidatePriority(priority: JsValue): (v: Verdict)
    ensures v.Valid? <==> ParseIntOf(priority).Some? && 1 <= ParseIntOf(priority).value <= 5
    ensures v.Invalid? ==> v.error == PriorityOutOfRange
  {
    var num := ParseIntOf(priority);
    if num.None? || num.value < 1 || num.value > 5 then Invalid(PriorityOutOfRange)
    else Valid
  }

  function ValidateSeverity(severity: JsValue): (v: Verdict)
    ensures v.Valid? <==> severity == Str("low") || severity == Str("medium") || severity == Str("high")
    ensures v.Invalid? ==> v.error == SeverityInvalid
  {
    if !Includes(ValidSeverities, severity) then Invalid(SeverityInvalid) else Valid
  }

  function ValidateStatus(status: JsValue): (v: Verdict)
    ensures v.Valid? <==> status == Str("open") || status == Str("in-progress") || status == Str("closed")
    ensures v.Invalid? ==> v.error == StatusInvalid
  {
    if !Includes(ValidStatuses, status) then Invalid(StatusInvalid) else Valid
  }

  /** The trimmed length bounds a title, the raw length a description:
      a title of only spaces is rejected, a description of only spaces is
      accepted. */
  lemma WhiteSpaceTitleVersusDescription(s: string)
    requires s != [] && Strings.AllWhiteSpace(s) && |s| <= MaxDescriptionLength
    ensures ValidateBugTitle(Str(s)) == Invalid(TitleEmpty)
    ensures ValidateBugDescription(Str(s)).Valid?
  {
    assert Strings.IsBmp(s) by {
      forall i | 0 <= i < |s| ensures s[i] as int < 0x1_0000 {
        assert Strings.IsWhiteSpace(s[i]);
      }
    }
    Strings.BmpLength(s);
  }

  /** Only the trimmed text of a non-empty title matters. */
  lemma TitleDependsOnTrim(a: string, b: string)
    requires a != "" && b != "" && Strings.Trim(a) == Strings.Trim(b)
    ensures ValidateBugTitle(Str(a)) == ValidateBugTitle(Str(b))
  {
  }

  /** Surrounding whitespace does not count against the title limit: a
      padded title is accepted exactly when the bare one is. */
  lemma TitlePaddingIgnored(pad: string, core: string)
    requires Strings.AllWhiteSpace(pad)
    requires core != [] && !Strings.IsWhiteSpace(core[0]) && !Strings.IsWhiteSpace(core[|core| - 1])
    ensures ValidateBugTitle(Str(pad + core + pad)) == ValidateBugTitle(Str(core))
  {
    Strings.TrimOfPadded(pad, core, pad);
    Strings.TrimOfUnpadded(core);
    TitleDependsOnTrim(pad + core + pad, core);
  }

  /** A title that starts and ends with a visible character is accepted
      when it is at most 100 UTF-16 units long. */
  lemma TitleAccepted(core: string)
    requires core != [] && !Strings.IsWhiteSpace(core[0]) && !Strings.IsWhiteSpace(core[|core| - 1])
    requires Strings.Utf16Length(core) <= MaxTitleLength
    ensures ValidateBugTitle(Str(core)) == Valid
  {
    Strings.TrimOfUnpadded(core);
  }

  /** A number is an acceptable priority exactly when it lies in 1..5. */
  lemma PriorityOfNumber(n: SafeInt)
    ensures ValidatePriority(Num(n)).Valid? <==> 1 <= n <= 5
  {
    ParseIntOfNumber(n);
  }

  /** `undefined`, `null`, booleans and plain objects parse to `NaN` and
      are rejected. */
  lemma PriorityOfNonNumeric(v: JsValue)
    requires !v.Num? && !v.Str? && !v.Arr?
    ensures ValidatePriority(v) == Invalid(PriorityOutOfRange)
  {
    ParseIntOfNonNumeric(v);
  }

  /** A one-element array is judged as its element: `[3]` is an accepted
      priority. */
  lemma PriorityOfSingletonArray(e: JsValue)
    requires !e.Undefined? && !e.Null?
    ensures ValidatePriority(Arr([e])) == ValidatePriority(e)
    ensures e.Num? ==> (ValidatePriority(Arr([e])).Valid? <==> 1 <= e.n <= 5)
  {
    ParseIntOfSingletonArray(e);
    if e.Num? {
      PriorityOfNumber(e.n);
    }
  }

  /** A string priority is judged by its leading run of decimal digits
      after any whitespace; what follows the digits is ignored, so
      `" 3 stars"` is accepted. */
  lemma PriorityOfDigitString(ws: string, d: string, rest: string)
    requires Strings.AllWhiteSpace(ws)
    requires 1 <= |d| && Numbers.AllDecimalDigits(d)
    requires rest == [] || (!Numbers.IsRadixDigit(rest[0], 10) && (d == "0" ==> rest[0] != 'x' && rest[0] != 'X'))
    ensures Numbers.AllRadixDigits(d, 10)
    ensures ValidatePriority(Str(ws + d + rest)).Valid? <==> 1 <= Numbers.DigitsValue(d, 10) <= 5
  {
    Numbers.ParseIntPrefix(ws, d, rest);
  }

  /** A sign before the digits is honoured: `"+3"` is accepted and `"-3"`
      is out of range. */
  lemma PriorityOfSignedDigits(ws: string, sign: Numbers.Sign, d: string, rest: string)
    requires Strings.AllWhiteSpace(ws)
    requires 1 <= |d| && Numbers.AllDecimalDigits(d)
    requires rest == [] || (!Numbers.IsRadixDigit(rest[0], 10) && (d == "0" ==> rest[0] != 'x' && rest[0] != 'X'))
    ensures Numbers.AllRadixDigits(d, 10)
    ensures ValidatePriority(Str(ws + Numbers.SignText(sign) + d + rest)).Valid? <==>
              1 <= Numbers.Signed(sign, Numbers.DigitsValue(d, 10)) <= 5
  {
    Numbers.ParseIntSigned(ws, sign, d, rest);
    PriorityOfParsedString(ws + Numbers.SignText(sign) + d + rest, Numbers.Signed(sign, Numbers.DigitsValue(d, 10)));
  }

  /** Hexadecimal text is read in base 16: `"0x5"` is accepted, `"0x10"`
      is not. */
  lemma PriorityOfHexDigits(ws: string, sign: Numbers.Sign, x: char, h: string, rest: string)
    requires Strings.AllWhiteSpace(ws)
    requires x == 'x' || x == 'X'
    requires 1 <= |h| && Numbers.AllRadixDigits(h, 16)
    requires rest == [] || !Numbers.IsRadixDigit(rest[0], 16)
    ensures ValidatePriority(Str(ws + Numbers.SignText(sign) + (['0', x] + h + rest))).Valid? <==>
              1 <= Numbers.Signed(sign, Numbers.DigitsValue(h, 16)) <= 5
  {
    Numbers.ParseIntHex(ws, sign, x, h, rest);
    PriorityOfParsedString(ws + Numbers.SignText(sign) + (['0', x] + h + rest), Numbers.Signed(sign, Numbers.DigitsValue(h, 16)));
  }

  lemma PriorityOfParsedString(s: string, n: int)
    requires Numbers.ParseInt(s).Some? && Numbers.ParseInt(s).value == n
    ensures ValidatePriority(Str(s)).Valid? <==> 1 <= n <= 5
  {
    assert ParseIntOf(Str(s)) == Numbers.ParseInt(s);
  }

  /** A sign that is not directly followed by a digit leaves nothing to
      read, so the priority is rejected. */
  lemma PriorityOfSignWithoutDigit(ws: string, sign: Numbers.Sign, u: string)
    requires Strings.AllWhiteSpace(ws)
    requires sign != Numbers.Unsigned
    requires u == [] || !Numbers.IsDecimalDigit(u[0])
    ensures ValidatePriority(Str(ws + Numbers.SignText(sign) + u)).Invalid?
  {
    Numbers.ParseIntSignWithoutDigit(ws, sign, u);
    assert ParseIntOf(Str(ws + Numbers.SignText(sign) + u)) == Numbers.ParseInt(ws + Numbers.SignText(sign) + u);
  }

  /** `"+ 3"` is rejected: no whitespace is skipped after the sign. */
  lemma SpaceAfterSignRejected()
    ensures ValidatePriority(Str("+ 3")).Invalid?
  {
    var u := " 3";
    assert !Numbers.IsDecimalDigit(u[0]);
    PriorityOfSignWithoutDigit([], Numbers.Plus, u);
    assert [] + Numbers.SignText(Numbers.Plus) + u == "+ 3";
  }

  /** `"+3"` is an accepted priority. */
  lemma PlusThreeAccepted()
    ensures ValidatePriority(Str("+3")).Valid?
  {
    var three := "3";
    assert Numbers.DigitsValue(three, 10) == 3;
    PriorityOfSignedDigits([], Numbers.Plus, three, []);
    assert [] + Numbers.SignText(Numbers.Plus) + three + [] == "+3";
  }

  /** `"0x5"` is an accepted priority. */
  lemma HexFiveAccepted()
    ensures ValidatePriority(Str("0x5")).Valid?
  {
    var five := "5";
    assert Numbers.DigitsValue(five, 16) == 5;
    PriorityOfHexDigits([], Numbers.Unsigned, 'x', five, []);
    assert [] + Numbers.SignText(Numbers.Unsigned) + (['0', 'x'] + five + []) == "0x5";
  }

  /** `"0x"` has no digit and is rejected. */
  lemma BareHexPrefixRejected()
    ensures ValidatePriority(Str("0x")).Invalid?
  {
    Numbers.BareHexPrefixIsNaN();
  }

  /** Severity and status membership is exact and case-sensitive. */
  lemma EnumsAreCaseSensitive()
    ensures ValidateSeverity(Str("High")).Invalid? && ValidateSeverity(Str("high ")).Invalid?
    ensures ValidateStatus(Str("Open")).Invalid? && ValidateStatus(Str("in progress")).Invalid?
  {
  }

  /** The check `validateBugData` runs for field `f`: the title always,
      any other field only when its value is truthy; a skipped check
      passes. */
  function FieldCheck(data: Bug, f: Field): (v: Verdict)
    ensures f != Title && !Truthy(Get(data, f)) ==> v == Valid
  {
    match f
    case Title => ValidateBugTitle(data.title)
    case Description => if Truthy(data.description) then ValidateBugDescription(data.description) else Valid
    case Priority => if Truthy(data.priority) then ValidatePriority(data.priority) else Valid
    case Severity => if Truthy(data.severity) then ValidateSeverity(data.severity) else Valid
    case Status => if Truthy(data.status) then ValidateStatus(data.status) else Valid
  }

  /** The messages a field's check can report. */
  function Messages(f: Field): set<string> {
    match f
    case Title => {TitleRequired, TitleEmpty, TitleTooLong}
    case Description => {DescriptionNotString, DescriptionTooLong}
    case Priority => {PriorityOutOfRange}
    case Severity => {SeverityInvalid}
    case Status => {StatusInvalid}
  }

  /** A failing check reports one of its own field's messages, so the
      message names the field. */
  lemma FieldCheckMessages(data: Bug, f: Field)
    ensures FieldCheck(data, f).Invalid? ==> FieldCheck(data, f).error in Messages(f)
    ensures forall g :: g != f ==> Messages(g) !! Messages(f)
  {
  }

  /** The five checks in the order `validateBugData` runs them: every field
      is checked once, at its place in the order, and only the title and
      the truthy fields can fail. */
  function Checks(data: Bug): (vs: seq<Verdict>)
    ensures |vs| == |FieldOrder|
    ensures forall i :: 0 <= i < |FieldOrder| ==> vs[i] == FieldCheck(data, FieldOrder[i])
    ensures forall f: Field :: vs[Rank(f)] == FieldCheck(data, f)
    ensures forall i :: 0 <= i < |vs| && vs[i].Invalid? ==>
              FieldOrder[i] == Title || Truthy(Get(data, FieldOrder[i]))
  {
    seq(|FieldOrder|, i requires 0 <= i < |FieldOrder| => FieldCheck(data, FieldOrder[i]))
  }

  /** What `errors.push(v.error)` adds for one verdict. */
  function ErrorOf(v: Verdict): seq<string> {
    if v.Invalid? then [v.error] else []
  }

  /** The `errors` array after pushing the message of every failed check of
      `vs` in turn. */
  function Collect(vs: seq<Verdict>): (errors: seq<string>)
    ensures |errors| <= |vs|
    ensures errors == [] <==> forall i :: 0 <= i < |vs| ==> vs[i].Valid?
  {
    if vs == [] then [] else ErrorOf(vs[0]) + Collect(vs[1..])
  }

  /** Positions of the failed checks of `vs`, in increasing order. */
  function FailedIndices(vs: seq<Verdict>): (idx: seq<nat>)
    ensures |idx| <= |vs|
    ensures forall k :: 0 <= k < |idx| ==> idx[k] < |vs| && vs[idx[k]].Invalid?
    ensures forall k, m :: 0 <= k < m < |idx| ==> idx[k] < idx[m]
    ensures forall i :: 0 <= i < |vs| && vs[i].Invalid? ==> i in idx
  {
    if vs == [] then []
    else
      var rest := FailedIndices(vs[1..]);
      var shifted := Shift(rest);
      ShiftFacts(vs, rest, shifted);
      if vs[0].Invalid? then
        ConsFacts(vs, shifted);
        [0] + shifted
      else shifted
  }

  lemma ShiftFacts(vs: seq<Verdict>, rest: seq<nat>, shifted: seq<nat>)
    requires vs != []
    requires forall k :: 0 <= k < |rest| ==> rest[k] < |vs| - 1 && vs[1..][rest[k]].Invalid?
    requires forall i :: 0 <= i < |vs| - 1 && vs[1..][i].Invalid? ==> i in rest
    requires |shifted| == |rest| && forall k :: 0 <= k < |rest| ==> shifted[k] == rest[k] + 1
    ensures forall k :: 0 <= k < |shifted| ==> 1 <= shifted[k] < |vs| && vs[shifted[k]].Invalid?
    ensures forall i :: 1 <= i < |vs| && vs[i].Invalid? ==> i in shifted
  {
    forall k | 0 <= k < |shifted| ensures 1 <= shifted[k] < |vs| && vs[shifted[k]].Invalid? {
      assert vs[1..][rest[k]] == vs[shifted[k]];
    }
    forall i | 1 <= i < |vs| && vs[i].Invalid? ensures i in shifted {
      assert vs[1..][i - 1] == vs[i];
      var k :| 0 <= k < |rest| && rest[k] == i - 1;
      assert shifted[k] == i;
    }
  }

  lemma ConsFacts(vs: seq<Verdict>, shifted: seq<nat>)
    requires vs != [] && vs[0].Invalid?
    requires forall k :: 0 <= k < |shifted| ==> 1 <= shifted[k] < |vs| && vs[shifted[k]].Invalid?
    requires forall k, m :: 0 <= k < m < |shifted| ==> shifted[k] < shifted[m]
    requires forall i :: 1 <= i < |vs| && vs[i].Invalid? ==> i in shifted
    ensures var idx := [0] + shifted;
      (forall k :: 0 <= k < |idx| ==> idx[k] < |vs| && vs[idx[k]].Invalid?)
      && (forall k, m :: 0 <= k < m < |idx| ==> idx[k] < idx[m])
      && (forall i :: 0 <= i < |vs| && vs[i].Invalid? ==> i in idx)
  {
    var idx := [0] + shifted;
    assert forall k :: 0 < k < |idx| ==> idx[k] == shifted[k - 1];
  }

  function Shift(xs: seq<nat>): (ys: seq<nat>)
    ensures |ys| == |xs|
    ensures forall k :: 0 <= k < |xs| ==> ys[k] == xs[k] + 1
  {
    if xs == [] then [] else [xs[0] + 1] + Shift(xs[1..])
  }

  /** The collected messages are exactly those of the failed checks, one
      per failure, in the order of the checks. */
  lemma {:induction false} CollectIsFailedMessages(vs: seq<Verdict>)
    ensures var idx := FailedIndices(vs);
            |Collect(vs)| == |idx|
            && forall k :: 0 <= k < |idx| ==> Collect(vs)[k] == vs[idx[k]].error
  {
    if vs != [] {
      CollectIsFailedMessages(vs[1..]);
      CollectStep(vs, FailedIndices(vs[1..]), Collect(vs[1..]));
    }
  }

  /** One step of the induction: the first verdict's message, if any, goes
      in front of the messages of the rest. */
  lemma CollectStep(vs: seq<Verdict>, rest: seq<nat>, tail: seq<string>)
    requires vs != [] && rest == FailedIndices(vs[1..]) && tail == Collect(vs[1..])
    requires |tail| == |rest| && forall k :: 0 <= k < |rest| ==> tail[k] == vs[1..][rest[k]].error
    ensures var idx := FailedIndices(vs);
            |Collect(vs)| == |idx|
            && forall k :: 0 <= k < |idx| ==> Collect(vs)[k] == vs[idx[k]].error
  {
    if vs[0].Invalid? {
      MessagesAfterFailure(vs, rest, tail, FailedIndices(vs), Collect(vs));
    } else {
      MessagesAfterPass(vs, rest, tail, FailedIndices(vs), Collect(vs));
    }
  }

  lemma MessagesAfterFailure(vs: seq<Verdict>, rest: seq<nat>, tail: seq<string>, idx: seq<nat>, c: seq<string>)
    requires vs != [] && vs[0].Invalid?
    requires forall k :: 0 <= k < |rest| ==> rest[k] < |vs| - 1 && vs[1..][rest[k]].Invalid?
    requires |tail| == |rest| && forall k :: 0 <= k < |rest| ==> tail[k] == vs[1..][rest[k]].error
    requires idx == [0] + Shift(rest) && c == [vs[0].error] + tail
    ensures |c| == |idx| && forall k :: 0 <= k < |idx| ==> idx[k] < |vs| && vs[idx[k]].Invalid? && c[k] == vs[idx[k]].error
  {
    forall k | 0 <= k < |idx| ensures idx[k] < |vs| && vs[idx[k]].Invalid? && c[k] == vs[idx[k]].error {
      if k > 0 {
        assert idx[k] == rest[k - 1] + 1;
        assert vs[idx[k]] == vs[1..][rest[k - 1]];
      }
    }
  }

  lemma MessagesAfterPass(vs: seq<Verdict>, rest: seq<nat>, tail: seq<string>, idx: seq<nat>, c: seq<string>)
    requires vs != []
    requires forall k :: 0 <= k < |rest| ==> rest[k] < |vs| - 1 && vs[1..][rest[k]].Invalid?
    requires |tail| == |rest| && forall k :: 0 <= k < |rest| ==> tail[k] == vs[1..][rest[k]].error
    requires idx == Shift(rest) && c == tail
    ensures |c| == |idx| && forall k :: 0 <= k < |idx| ==> idx[k] < |vs| && vs[idx[k]].Invalid? && c[k] == vs[idx[k]].error
  {
    forall k | 0 <= k < |idx| ensures idx[k] < |vs| && vs[idx[k]].Invalid? && c[k] == vs[idx[k]].error {
      assert idx[k] == rest[k] + 1;
      assert vs[idx[k]] == vs[1..][rest[k]];
    }
  }

  /** `{ isValid: true }` or `{ isValid: false, errors }`. */
  datatype DataVerdict = DataValid | DataInvalid(errors: seq<string>)

  /** The error list names exactly the fields whose check failed, each
      once, in the order title, description, priority, severity, status;
      the verdict is valid exactly when no check failed. */
  function ValidateBugData(data: Bug): (r: DataVerdict)
    ensures r.DataValid? <==> forall f: Field :: FieldCheck(data, f).Valid?
    ensures r.DataInvalid? ==> 1 <= |r.errors| <= |FieldOrder|
    ensures r.DataInvalid? ==>
              var vs := Checks(data);
              var idx := FailedIndices(vs);
              |r.errors| == |idx| && forall k :: 0 <= k < |idx| ==> r.errors[k] == vs[idx[k]].error
  {
    var vs := Checks(data);
    var errors := Collect(vs);
    CollectIsFailedMessages(vs);
    NoFailureIffAllValid(data);
    if |errors| > 0 then DataInvalid(errors) else DataValid
  }

  lemma NoFailureIffAllValid(data: Bug)
    ensures |FailedIndices(Checks(data))| == 0 <==> forall f: Field :: FieldCheck(data, f).Valid?
  {
    var vs := Checks(data);
    var idx := FailedIndices(vs);
    if |idx| == 0 {
      forall f: Field ensures FieldCheck(data, f).Valid? {
        assert vs[Rank(f)] == FieldCheck(data, f);
      }
    } else {
      assert vs[idx[0]].Invalid?;
      assert FieldCheck(data, FieldOrder[idx[0]]).Invalid?;
    }
  }

  /** The title is always checked, and its message comes first whenever
      the title is invalid. */
  lemma TitleErrorFirst(data: Bug)
    ensures ValidateBugTitle(data.title).Invalid? ==>
              ValidateBugData(data).DataInvalid?
              && ValidateBugData(data).errors[0] == ValidateBugTitle(data.title).error
  {
    var vs := Checks(data);
    var idx := FailedIndices(vs);
    if ValidateBugTitle(data.title).Invalid? {
      assert vs[Rank(Title)] == FieldCheck(data, Title);
      assert 0 in idx;
      var k :| 0 <= k < |idx| && idx[k] == 0;
      assert k == 0;
    }
  }

  /** What a field contributes to the `errors` array: the title's message
      when its validator fails, any other field's message when the field is
      truthy and its validator fails, and nothing otherwise. */
  function FieldErrors(data: Bug): seq<string> {
    ErrorOf(ValidateBugTitle(data.title))
    + ((if Truthy(data.description) then ErrorOf(ValidateBugDescription(data.description)) else [])
    + ((if Truthy(data.priority) then ErrorOf(ValidatePriority(data.priority)) else [])
    + ((if Truthy(data.severity) then ErrorOf(ValidateSeverity(data.severity)) else [])
    + (if Truthy(data.status) then ErrorOf(ValidateStatus(data.status)) else []))))
  }

  /** `validateBugData` field by field: the verdict is valid exactly when
      the title passes `validateBugTitle` and every truthy field passes its
      own validator, and the error list is those validators' messages in
      the order title, description, priority, severity, status. */
  lemma ValidateBugDataByField(data: Bug)
    ensures ValidateBugData(data).DataValid? <==>
              ValidateBugTitle(data.title).Valid?
              && (!Truthy(data.description) || ValidateBugDescription(data.description).Valid?)
              && (!Truthy(data.priority) || ValidatePriority(data.priority).Valid?)
              && (!Truthy(data.severity) || ValidateSeverity(data.severity).Valid?)
              && (!Truthy(data.status) || ValidateStatus(data.status).Valid?)
    ensures ValidateBugData(data) ==
              if FieldErrors(data) == [] then DataValid else DataInvalid(FieldErrors(data))
  {
    var vs := Checks(data);
    assert vs[0] == FieldCheck(data, Title) && vs[1] == FieldCheck(data, Description);
    assert vs[2] == FieldCheck(data, Priority) && vs[3] == FieldCheck(data, Severity);
    assert vs[4] == FieldCheck(data, Status);
    CollectFive(vs);
    assert Collect(vs) == FieldErrors(data);
  }

  lemma CollectFive(vs: seq<Verdict>)
    requires |vs| == 5
    ensures Collect(vs) == ErrorOf(vs[0]) + (ErrorOf(vs[1]) + (ErrorOf(vs[2]) + (ErrorOf(vs[3]) + ErrorOf(vs[4]))))
  {
    assert vs[0..] == vs && vs[5..] == [];
    CollectFrom(vs, 0);
    CollectFrom(vs, 1);
    CollectFrom(vs, 2);
    CollectFrom(vs, 3);
    CollectFrom(vs, 4);
    assert ErrorOf(vs[4]) + [] == ErrorOf(vs[4]);
  }

  lemma CollectFrom(vs: seq<Verdict>, k: nat)
    requires k < |vs|
    ensures Collect(vs[k..]) == ErrorOf(vs[k]) + Collect(vs[k + 1..])
  {
    assert vs[k..][1..] == vs[k + 1..];
  }

  /** A falsy description, priority, severity or status is not checked at
      all: replacing it by any other falsy value, or removing it, leaves
      the verdict unchanged. */
  lemma FalsyFieldsSkipped(data: Bug, f: Field, x: JsValue)
    requires f != Title && !Truthy(x)
    ensures ValidateBugData(With(data, f, x)) == ValidateBugData(With(data, f, Undefined))
  {
    var a := With(data, f, x);
    var b := With(data, f, Undefined);
    forall g: Field ensures FieldCheck(a, g) == FieldCheck(b, g) {
      if g != f {
        assert Get(a, g) == Get(b, g);
      }
    }
    SameChecks(a, b);
  }

  lemma SameChecks(a: Bug, b: Bug)
    requires forall g: Field :: FieldCheck(a, g) == FieldCheck(b, g)
    ensures Checks(a) == Checks(b)
  {
    assert forall i :: 0 <= i < |FieldOrder| ==> Checks(a)[i] == Checks(b)[i];
  }

  /** In particular a priority of 0 passes the aggregate check although
      `validatePriority(0)` rejects it, and so does an empty severity. */
  lemma ZeroPrioritySkipped(data: Bug)
    requires data.priority == Num(0) && data.severity == Str("")
    requires ValidateBugTitle(data.title).Valid? && !Truthy(data.description) && !Truthy(data.status)
    ensures ValidatePriority(data.priority).Invalid?
    ensures ValidateSeverity(data.severity).Invalid?
    ensures ValidateBugData(data) == DataValid
  {
    PriorityOfNumber(0);
    EmptySeverityRejected();
    assert !Truthy(data.priority) && !Truthy(data.severity);
    OnlyTitleChecked(data);
  }

  lemma EmptySeverityRejected()
    ensures ValidateSeverity(Str("")).Invalid?
  {
    assert !Includes(ValidSeverities, Str(""));
  }

  /** With every other field falsy, only the title decides the verdict. */
  lemma OnlyTitleChecked(data: Bug)
    requires !Truthy(data.description) && !Truthy(data.priority)
    requires !Truthy(data.severity) && !Truthy(data.status)
    ensures ValidateBugData(data).DataValid? <==> ValidateBugTitle(data.title).Valid?
  {
    if ValidateBugTitle(data.title).Valid? {
      forall f: Field ensures FieldCheck(data, f).Valid? {
      }
    } else {
      assert FieldCheck(data, Title).Invalid?;
    }
  }

  /** With description, severity and status falsy, the title and a
      truthy priority decide the verdict. */
  lemma TitleAndPriorityDecide(data: Bug)
    requires !Truthy(data.description) && !Truthy(data.severity) && !Truthy(data.status)
    ensures ValidateBugData(data).DataValid? <==>
              ValidateBugTitle(data.title).Valid? && (!Truthy(data.priority) || ValidatePriority(data.priority).Valid?)
  {
    ValidateBugDataByField(data);
  }

  /** A record without a title is always rejected, the title's message
      first. */
  lemma TitleAlwaysChecked(data: Bug)
    requires data.title == Undefined
    ensures ValidateBugData(data).DataInvalid?
    ensures ValidateBugData(data).errors[0] == TitleRequired
  {
    TitleErrorFirst(data);
  }
}
