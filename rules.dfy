/**
 * Monitor rules: the rule record, the two built-in templates, the "add rule" dialog's
 * defaults, and the JavaScript object-literal text the rules are injected as.
 */
module Rules {
  import opened Wrappers
  import opened Text

  /** `MonitorRule(keyword, threshold, alertMessage)`; the threshold is a Kotlin `Int`. */
  datatype MonitorRule = MonitorRule(keyword: string, threshold: int32, alertMessage: string)

  /** The fixed rule list `RULES` of the earlier revision. */
  const GlobalRules: seq<MonitorRule> := [
    MonitorRule("Error", 3, "严重错误 (Error x3)"),
    MonitorRule("Timeout", 3, "网络超时 (Timeout x3)"),
    MonitorRule("Exception", 3, "程序异常 (Exception x3)"),
    MonitorRule("失败", 3, "操作失败报警")
  ]

  /** The template `DEFAULT_RULES` every new tab of the later revision starts from. */
  const DefaultRules: seq<MonitorRule> := [
    MonitorRule("Error", 3, "严重错误"),
    MonitorRule("Timeout", 3, "网络超时")
  ]

  /** Threshold used when the count field does not hold an `Int`. */
  const DefaultThreshold: int32 := 1

  /** Message used when the message field is empty: "发现 {keyword}". */
  function DefaultMessage(keyword: string): string {
    "发现 " + keyword
  }

  /**
   * The rule the "添加" button builds from the three text fields, or None when the
   * keyword field is empty (the button then adds nothing).
   */
  function NewRule(keyText: string, countText: string, msgText: string): (r: Option<MonitorRule>)
    ensures r.None? <==> keyText == []
    ensures r.Some? ==> r.value.keyword == keyText
    ensures r.Some? && ParseInt(countText).None? ==> r.value.threshold == DefaultThreshold
    ensures r.Some? && ParseInt(countText).Some? ==> r.value.threshold == ParseInt(countText).value
    ensures r.Some? && msgText == [] ==> r.value.alertMessage == DefaultMessage(keyText)
    ensures r.Some? && msgText != [] ==> r.value.alertMessage == msgText
  {
    if keyText == [] then None
    else
      var c := ParseInt(countText).GetOr(DefaultThreshold);
      var m := if msgText == [] then DefaultMessage(keyText) else msgText;
      Some(MonitorRule(keyText, c, m))
  }

  /** The rule list after the dialog's "添加" button: appended at the end, or unchanged. */
  function AddRule(rules: seq<MonitorRule>, keyText: string, countText: string, msgText: string)
    : (r: seq<MonitorRule>)
    ensures keyText == [] ==> r == rules
    ensures keyText != [] ==> |r| == |rules| + 1 && r[..|rules|] == rules
    ensures keyText != [] ==> r[|rules|] == NewRule(keyText, countText, msgText).value
  {
    match NewRule(keyText, countText, msgText)
    case None => rules
    case Some(rule) => rules + [rule]
  }

  /** A threshold typed as the decimal text of an `Int` is taken as that `Int`. */
  lemma TypedThreshold(rules: seq<MonitorRule>, keyText: string, n: int32, msgText: string)
    requires keyText != []
    ensures AddRule(rules, keyText, IntToString(n as int), msgText)[|rules|].threshold == n
  {
    IntRoundTrip(n);
  }

  // ---------------------------------------------------------------------------
  // The JavaScript object-literal text of a rule list
  // ---------------------------------------------------------------------------

  /** One rule as `{key:'k', num:n, msg:'m'}`; nothing is escaped. */
  function RuleLiteral(r: MonitorRule): string {
    "{key:'" + r.keyword + "', num:" + IntToString(r.threshold as int) + ", msg:'" + r.alertMessage + "'}"
  }

  function JoinLiterals(rules: seq<MonitorRule>): string {
    if |rules| == 0 then []
    else if |rules| == 1 then RuleLiteral(rules[0])
    else RuleLiteral(rules[0]) + "," + JoinLiterals(rules[1..])
  }

  /** `joinToString(prefix = "[", postfix = "]", separator = ",")` over the rule literals. */
  function RulesLiteral(rules: seq<MonitorRule>): (s: string)
    ensures |s| >= 2 && s[0] == '[' && s[|s| - 1] == ']'
    ensures s == "[]" <==> rules == []
  {
    var s := "[" + JoinLiterals(rules) + "]";
    assert rules != [] ==> |JoinLiterals(rules)| > 0;
    s
  }

  /**
   * A text a JavaScript engine reads verbatim inside `'...'`: no quote ends it early,
   * no backslash starts an escape and no line break makes the literal invalid.
   */
  predicate QuoteSafe(s: string) {
    forall k :: 0 <= k < |s| ==> s[k] != '\'' && s[k] != '\\' && s[k] != '\n' && s[k] != '\r'
  }

  predicate RuleQuoteSafe(r: MonitorRule) {
    QuoteSafe(r.keyword) && QuoteSafe(r.alertMessage)
  }

  /** The body of a `'...'` literal up to its closing quote, and the text after that quote. */
  function QuotedBody(s: string): (r: Option<(string, string)>)
    ensures r.Some? ==> |r.value.1| < |s|
    decreases |s|
  {
    if |s| == 0 then None
    else if s[0] == '\'' then Some(([], s[1..]))
    else if s[0] == '\\' || s[0] == '\n' || s[0] == '\r' then None
    else
      match QuotedBody(s[1..])
      case None => None
      case Some(p) => Some(([s[0]] + p.0, p.1))
  }

  /** The text before the first `c`, and the text after it. */
  function Before(s: string, c: char): (r: Option<(string, string)>)
    ensures r.Some? ==> |r.value.1| < |s|
    decreases |s|
  {
    if |s| == 0 then None
    else if s[0] == c then Some(([], s[1..]))
    else
      match Before(s[1..], c)
      case None => None
      case Some(p) => Some(([s[0]] + p.0, p.1))
  }

  /** Reads ` msg:'m'}` at the front of `s`; returns the message and the rest. */
  function ReadMessage(s: string): (r: Option<(string, string)>)
    ensures r.Some? ==> |r.value.1| < |s|
  {
    if !(" msg:'" <= s) then None
    else
      match QuotedBody(s[6..])
      case None => None
      case Some(mq) =>
        if !("}" <= mq.1) then None else Some((mq.0, mq.1[1..]))
  }

  /** Reads `, num:n, msg:'m'}` at the front of `s`; returns threshold, message and rest. */
  function ReadNumberAndMessage(s: string): (r: Option<(int32, string, string)>)
    ensures r.Some? ==> |r.value.2| < |s|
  {
    if !(", num:" <= s) then None
    else
      match Before(s[6..], ',')
      case None => None
      case Some(nq) =>
        match ParseInt(nq.0)
        case None => None
        case Some(n) =>
          match ReadMessage(nq.1)
          case None => None
          case Some(mr) => Some((n, mr.0, mr.1))
  }

  /** Reads one rule literal at the front of `s`; returns the rule and the rest. */
  function ReadRule(s: string): (r: Option<(MonitorRule, string)>)
    ensures r.Some? ==> |r.value.1| < |s|
  {
    if !("{key:'" <= s) then None
    else
      match QuotedBody(s[6..])
      case None => None
      case Some(kq) =>
        match ReadNumberAndMessage(kq.1)
        case None => None
        case Some(nm) => Some((MonitorRule(kq.0, nm.0, nm.1), nm.2))
  }

  function ReadItems(s: string): Option<seq<MonitorRule>>
    decreases |s|
  {
    match ReadRule(s)
    case None => None
    case Some(p) =>
      var rest := p.1;
      if rest == [] then Some([p.0])
      else if rest[0] != ',' then None
      else
        match ReadItems(rest[1..])
        case None => None
        case Some(rs) => Some([p.0] + rs)
  }

  /** How the injected script reads the rule-list literal back into rules. */
  function ReadRules(s: string): Option<seq<MonitorRule>> {
    if s == "[]" then Some([])
    else if |s| >= 2 && s[0] == '[' && s[|s| - 1] == ']' then ReadItems(s[1..|s| - 1])
    else None
  }

  lemma {:induction false} QuotedBodyOf(t: string, rest: string)
    requires QuoteSafe(t)
    ensures QuotedBody(t + "'" + rest) == Some((t, rest))
    decreases |t|
  {
    var s := t + "'" + rest;
    if |t| > 0 {
      assert s[1..] == t[1..] + "'" + rest;
      QuotedBodyOf(t[1..], rest);
      assert [t[0]] + t[1..] == t;
    } else {
      assert s == "'" + rest;
    }
  }

  lemma {:induction false} BeforeOf(t: string, c: char, rest: string)
    requires c !in t
    ensures Before(t + [c] + rest, c) == Some((t, rest))
    decreases |t|
  {
    var s := t + [c] + rest;
    if |t| > 0 {
      assert s[1..] == t[1..] + [c] + rest;
      BeforeOf(t[1..], c, rest);
      assert [t[0]] + t[1..] == t;
    } else {
      assert s == [c] + rest;
    }
  }

  lemma NumberHasNoComma(n: int)
    ensures ',' !in IntToString(n)
  {
  }

  lemma ReadMessageOf(m: string, tail: string)
    requires QuoteSafe(m)
    ensures ReadMessage(" msg:'" + m + "'}" + tail) == Some((m, tail))
  {
    var s3 := "}" + tail;
    var s := " msg:'" + m + "'}" + tail;
    assert s == " msg:'" + (m + "'" + s3);
    assert s[6..] == m + "'" + s3;
    QuotedBodyOf(m, s3);
    assert s3[1..] == tail;
  }

  lemma ReadNumberAndMessageOf(n: int32, m: string, tail: string)
    requires QuoteSafe(m)
    ensures ReadNumberAndMessage(", num:" + IntToString(n as int) + ", msg:'" + m + "'}" + tail)
            == Some((n, m, tail))
  {
    var num := IntToString(n as int);
    var s2 := " msg:'" + m + "'}" + tail;
    var s := ", num:" + num + ", msg:'" + m + "'}" + tail;
    assert s == ", num:" + (num + [','] + s2);
    assert s[6..] == num + [','] + s2;
    NumberHasNoComma(n as int);
    BeforeOf(num, ',', s2);
    IntRoundTrip(n);
    ReadMessageOf(m, tail);
  }

  /** A quote-safe rule literal is read back as the same rule, leaving what follows it. */
  lemma ReadRuleOf(r: MonitorRule, tail: string)
    requires RuleQuoteSafe(r)
    ensures ReadRule(RuleLiteral(r) + tail) == Some((r, tail))
  {
    var s1 := ", num:" + IntToString(r.threshold as int) + ", msg:'" + r.alertMessage + "'}" + tail;
    var s := RuleLiteral(r) + tail;
    assert s == "{key:'" + (r.keyword + "'" + s1);
    assert s[6..] == r.keyword + "'" + s1;
    QuotedBodyOf(r.keyword, s1);
    ReadNumberAndMessageOf(r.threshold, r.alertMessage, tail);
  }

  /** A single rule literal reads back as the one-rule list. */
  lemma ReadItemsOne(r: MonitorRule)
    requires RuleQuoteSafe(r)
    ensures ReadItems(RuleLiteral(r)) == Some([r])
  {
    ReadRuleOf(r, []);
    assert RuleLiteral(r) + [] == RuleLiteral(r);
  }

  /** A rule literal, a comma and a readable list read back as the rule before the list. */
  lemma ReadItemsCons(r: MonitorRule, t: string, rs: seq<MonitorRule>)
    requires RuleQuoteSafe(r)
    requires ReadItems(t) == Some(rs)
    ensures ReadItems(RuleLiteral(r) + "," + t) == Some([r] + rs)
  {
    var tail := "," + t;
    ReadRuleOf(r, tail);
    assert RuleLiteral(r) + "," + t == RuleLiteral(r) + tail;
    assert tail[1..] == t;
  }

  lemma {:induction false} ReadItemsOf(rules: seq<MonitorRule>)
    requires |rules| >= 1
    requires forall i :: 0 <= i < |rules| ==> RuleQuoteSafe(rules[i])
    ensures ReadItems(JoinLiterals(rules)) == Some(rules)
    decreases |rules|
  {
    if |rules| == 1 {
      ReadItemsOne(rules[0]);
      assert rules == [rules[0]];
    } else {
      ReadItemsOf(rules[1..]);
      ReadItemsCons(rules[0], JoinLiterals(rules[1..]), rules[1..]);
      assert [rules[0]] + rules[1..] == rules;
    }
  }

  /**
   * The injected literal reads back as the very rule list it was made from, provided no
   * keyword or message holds a quote, a backslash or a line break.
   */
  lemma RulesLiteralRoundTrip(rules: seq<MonitorRule>)
    requires forall i :: 0 <= i < |rules| ==> RuleQuoteSafe(rules[i])
    ensures ReadRules(RulesLiteral(rules)) == Some(rules)
  {
    if |rules| > 0 {
      var s := RulesLiteral(rules);
      assert s[1..|s| - 1] == JoinLiterals(rules);
      ReadItemsOf(rules);
    }
  }
}
