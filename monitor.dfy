/**
 * One tick of the monitor script injected into each page: take the last 50 lines of
 * the page text, count each rule's keyword in them and post the messages of the
 * rules that reach their threshold. The later revision posts every such message;
 * the earlier one stops at the first (`break`).
 */
module Monitor {
  import opened Wrappers
  import opened Text
  import opened Rules

  /** Lines kept by `slice(-50)`. */
  const WindowLines: nat := 50

  /** `bodyText.split('\n').slice(-50).join('\n')`. */
  function Window(text: string): string {
    Join(LastN(Split(text, '\n'), WindowLines), '\n')
  }

  /** The window's lines are the last min(50, n) lines of the text, in order. */
  lemma WindowIsLastLines(text: string)
    ensures Split(Window(text), '\n') == LastN(Split(text, '\n'), WindowLines)
    ensures |Split(Window(text), '\n')| == if |Split(text, '\n')| < WindowLines then |Split(text, '\n')| else WindowLines
  {
    var lines := Split(text, '\n');
    var kept := LastN(lines, WindowLines);
    forall i | 0 <= i < |kept| ensures '\n' !in kept[i] {
      assert kept[i] == lines[|lines| - |kept| + i];
    }
    SplitJoin(kept, '\n');
  }

  /** With more than 50 lines, the window is what follows the first lines and their breaks. */
  lemma WindowOfLongText(text: string)
    requires |Split(text, '\n')| > WindowLines
    ensures |Window(text)| <= |text| && Window(text) == text[|text| - |Window(text)|..]
  {
    var lines := Split(text, '\n');
    JoinSplit(text, '\n');
    var i := |lines| - WindowLines;
    assert LastN(lines, WindowLines) == lines[i..];
    JoinCut(lines, i, '\n');
    var head := Join(lines[..i], '\n') + ['\n'];
    assert text == head + Window(text);
    assert text[|head|..] == Window(text);
  }

  /** The window is a suffix of the text, and the whole text when it has at most 50 lines. */
  lemma WindowIsSuffix(text: string)
    ensures |Window(text)| <= |text| && Window(text) == text[|text| - |Window(text)|..]
    ensures |Split(text, '\n')| <= WindowLines ==> Window(text) == text
  {
    var lines := Split(text, '\n');
    if |lines| > WindowLines {
      WindowOfLongText(text);
    } else {
      JoinSplit(text, '\n');
      assert LastN(lines, WindowLines) == lines;
    }
  }

  /** A rule fires when its keyword matches at least `threshold` times in the window. */
  predicate Fires(window: string, r: MonitorRule) {
    Occurrences(window, r.keyword) >= r.threshold as int
  }

  /** The messages of the firing rules, in rule order: the tick with no early exit. */
  function Alerts(window: string, rules: seq<MonitorRule>): seq<string>
  {
    if rules == [] then []
    else
      var last := rules[|rules| - 1];
      Alerts(window, rules[..|rules| - 1]) + (if Fires(window, last) then [last.alertMessage] else [])
  }

  /** The message of the first firing rule: the tick that stops at the first match. */
  function FirstAlert(window: string, rules: seq<MonitorRule>): Option<string>
  {
    if rules == [] then None
    else if Fires(window, rules[0]) then Some(rules[0].alertMessage)
    else FirstAlert(window, rules[1..])
  }

  /** Evaluating a longer rule list appends the later rules' alerts after the earlier ones'. */
  lemma {:induction false} AlertsAppend(window: string, a: seq<MonitorRule>, b: seq<MonitorRule>)
    ensures Alerts(window, a + b) == Alerts(window, a) + Alerts(window, b)
    decreases |b|
  {
    if b == [] {
      assert a + b == a;
    } else {
      var b' := b[..|b| - 1];
      assert (a + b)[..|a + b| - 1] == a + b';
      AlertsAppend(window, a, b');
    }
  }

  /**
   * Every firing rule posts its message and nothing else is posted: the alerts are
   * exactly the firing rules' messages, one per firing rule.
   */
  lemma {:induction false} AlertsAreFiringMessages(window: string, rules: seq<MonitorRule>)
    ensures |Alerts(window, rules)| <= |rules|
    ensures forall i :: 0 <= i < |rules| && Fires(window, rules[i]) ==> rules[i].alertMessage in Alerts(window, rules)
    ensures forall m :: m in Alerts(window, rules) ==>
              exists i :: 0 <= i < |rules| && Fires(window, rules[i]) && rules[i].alertMessage == m
    ensures Alerts(window, rules) == [] <==> forall i :: 0 <= i < |rules| ==> !Fires(window, rules[i])
    decreases |rules|
  {
    if rules != [] {
      var init := rules[..|rules| - 1];
      AlertsAreFiringMessages(window, init);
      forall i | 0 <= i < |init| ensures init[i] == rules[i] { }
      if Fires(window, rules[|rules| - 1]) {
        assert Alerts(window, rules) != [];
      }
    }
  }

  /** The first-match tick posts the head of what the no-break tick posts. */
  lemma {:induction false} FirstAlertIsFirstOfAlerts(window: string, rules: seq<MonitorRule>)
    ensures FirstAlert(window, rules) == if Alerts(window, rules) == [] then None else Some(Alerts(window, rules)[0])
    decreases |rules|
  {
    if rules != [] {
      assert rules == [rules[0]] + rules[1..];
      AlertsAppend(window, [rules[0]], rules[1..]);
      assert [rules[0]][..0] == [];
      assert Alerts(window, [rules[0]]) == if Fires(window, rules[0]) then [rules[0].alertMessage] else [];
      FirstAlertIsFirstOfAlerts(window, rules[1..]);
    }
  }

  /** One more rule adds its message after the earlier rules' alerts when it fires. */
  lemma AlertsStep(window: string, rules: seq<MonitorRule>, i: nat)
    requires i < |rules|
    ensures Alerts(window, rules[..i + 1])
            == Alerts(window, rules[..i]) + (if Fires(window, rules[i]) then [rules[i].alertMessage] else [])
  {
    assert rules[..i + 1][..i] == rules[..i];
  }

  /** Skipping a rule that does not fire leaves the first alert of the rest unchanged. */
  lemma FirstAlertStep(window: string, rules: seq<MonitorRule>, i: nat)
    requires i < |rules| && !Fires(window, rules[i])
    ensures FirstAlert(window, rules[i..]) == FirstAlert(window, rules[i + 1..])
  {
    assert rules[i..][1..] == rules[i + 1..];
  }

  /**
   * The rule loop of the later revision's script over a window: every rule reaching its
   * threshold posts its message, in rule order.
   */
  method PostAll(last50Lines: string, rules: seq<MonitorRule>) returns (posted: seq<string>)
    ensures posted == Alerts(last50Lines, rules)
  {
    posted := [];
    var i := 0;
    while i < |rules|
      invariant 0 <= i <= |rules|
      invariant posted == Alerts(last50Lines, rules[..i])
    {
      var matches := Occurrences(last50Lines, rules[i].keyword);
      AlertsStep(last50Lines, rules, i);
      if matches >= rules[i].threshold as int {
        posted := posted + [rules[i].alertMessage];
      }
      i := i + 1;
    }
    assert rules[..i] == rules;
  }

  /** The injected script of the later revision, one tick on the page text. */
  method TickAll(bodyText: string, rules: seq<MonitorRule>) returns (posted: seq<string>)
    ensures posted == Alerts(Window(bodyText), rules)
  {
    var last50Lines := Window(bodyText);
    posted := PostAll(last50Lines, rules);
  }

  /**
   * The rule loop of the earlier revision's script over a window: the first rule
   * reaching its threshold posts its message and the scan stops, so at most one
   * message is posted.
   */
  method PostFirst(last50Lines: string, rules: seq<MonitorRule>) returns (posted: Option<string>)
    ensures posted == FirstAlert(last50Lines, rules)
  {
    posted := None;
    var i := 0;
    while i < |rules|
      invariant 0 <= i <= |rules|
      invariant FirstAlert(last50Lines, rules) == FirstAlert(last50Lines, rules[i..])
    {
      var matches := Occurrences(last50Lines, rules[i].keyword);
      if matches >= rules[i].threshold as int {
        posted := Some(rules[i].alertMessage);
        break;
      }
      FirstAlertStep(last50Lines, rules, i);
      i := i + 1;
    }
  }

  /** The injected script of the earlier revision, one tick on the page text. */
  method TickFirst(bodyText: string, rules: seq<MonitorRule>) returns (posted: Option<string>)
    ensures posted == FirstAlert(Window(bodyText), rules)
  {
    var last50Lines := Window(bodyText);
    posted := PostFirst(last50Lines, rules);
  }
}
