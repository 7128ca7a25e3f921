/**
 * The earlier revision of the activity: one fixed rule list for every page, an
 * optional port field on the home screen, and pages that are a WebView tagged with
 * their alias. The first firing rule of a tick posts its message and stops the scan.
 */
module GlobalRulesActivity {
  import opened Wrappers
  import opened Text
  import opened Rules
  import opened Monitor
  import opened Cooldown
  import opened History
  import opened Credentials
  import opened Tabs
  import opened Urls

  /** An open page: the WebView's tag (its alias) and the address it was loaded with. */
  datatype Page = Page(alias: string, url: string)

  /** The extras of the keep-alive service start intent ("ALIAS", "URL"). */
  datatype ServiceStart = ServiceStart(alias: string, url: string)

  /** What the "打开" button opens: the alias and the normalised address. */
  datatype Request = Request(alias: string, url: string)

  /** The title of an alert notification. */
  const AlertTitle: string := "监控报警"

  /** The title of the page-loaded notification. */
  const StatusTitle: string := "运行状态"

  /** The notification sent when a page has finished loading: its text names the alias. */
  function PageLoadedNotification(alias: string): (n: Notification)
    ensures n.title == StatusTitle
    ensures |n.text| > |alias| + 4 && n.text[4..4 + |alias|] == alias
    ensures n.text[..4] == "别名: " && n.text[4 + |alias|..] == "\n状态: 正常运行中"
  {
    var text := "别名: " + alias + "\n状态: 正常运行中";
    assert text[..4] == "别名: " && text[4..4 + |alias|] == alias;
    Notification(StatusTitle, text)
  }

  /**
   * The home-screen fields made into a request: nothing when the trimmed address is
   * empty; a blank alias becomes "未命名"; the address gets its scheme and then the
   * port, if any, on its authority.
   */
  function NormalizeRequest(aliasText: string, urlText: string, portText: string): (r: Option<Request>)
    ensures r.None? <==> IsBlank(urlText)
    ensures r.Some? && IsBlank(aliasText) ==> r.value.alias == UnnamedAlias
    ensures r.Some? && !IsBlank(aliasText) ==> r.value.alias == Trim(aliasText)
    ensures r.Some? ==> HasScheme(r.value.url)
    ensures r.Some? && IsBlank(portText) ==> r.value.url == WithScheme(Trim(urlText))
    ensures r.Some? ==> r.value.url == WithPort(WithScheme(Trim(urlText)), Trim(portText))
  {
    var alias := if Trim(aliasText) == [] then UnnamedAlias else Trim(aliasText);
    var url := Trim(urlText);
    var port := Trim(portText);
    if url == [] then None
    else
      var withScheme := WithScheme(url);
      Some(Request(alias, WithPort(withScheme, port)))
  }

  /**
   * A port of digits typed on the home screen: an address whose authority already has
   * a port is kept as typed; otherwise ":port" is appended to the typed authority, and
   * the scheme and the typed path, query and fragment are kept as they were.
   */
  lemma NormalizedPortOnAuthority(aliasText: string, urlText: string, portText: string)
    requires !IsBlank(urlText)
    requires AllDigits(Trim(portText)) && !IsBlank(portText)
    ensures NormalizeRequest(aliasText, urlText, portText).Some?
    ensures var typed := WithScheme(Trim(urlText));
            var url := NormalizeRequest(aliasText, urlText, portText).value.url;
            HasScheme(url) && HasPort(Authority(url))
            && (HasPort(Authority(typed)) ==> url == typed)
            && (!HasPort(Authority(typed)) ==>
                  url[..SchemeLength(url)] == typed[..SchemeLength(typed)]
                  && Authority(url) == Authority(typed) + ":" + Trim(portText)
                  && Rest(url) == Rest(typed))
  {
    var typed := WithScheme(Trim(urlText));
    if !HasPort(Authority(typed)) {
      WithPortPlacesPort(typed, Trim(portText));
    }
  }

  /** The history item the "打开" button records is decoded back to the request. */
  lemma RequestHistoryRoundTrip(aliasText: string, urlText: string, portText: string)
    requires NormalizeRequest(aliasText, urlText, portText).Some?
    ensures var req := NormalizeRequest(aliasText, urlText, portText).value;
            DecodeEntry(EncodeEntry(req.alias, req.url)) == Entry(req.alias, req.url)
            <==> Separator !in req.alias && Separator !in req.url
  {
    var req := NormalizeRequest(aliasText, urlText, portText).value;
    EntryRoundTrip(req.alias, req.url);
  }

  /**
   * With the fixed rule list, a window holding "Error" three times posts the first
   * rule's message, whatever else it holds.
   */
  lemma ErrorRuleComesFirst(window: string)
    requires Occurrences(window, "Error") >= 3
    ensures FirstAlert(window, GlobalRules) == Some("严重错误 (Error x3)")
  {
    assert GlobalRules[0] == MonitorRule("Error", 3, "严重错误 (Error x3)");
  }

  /** The texts of the fixed rule list hold no quote, backslash or line break. */
  lemma GlobalRuleTextsQuoteSafe()
    ensures QuoteSafe("Error") && QuoteSafe("严重错误 (Error x3)")
    ensures QuoteSafe("Timeout") && QuoteSafe("网络超时 (Timeout x3)")
    ensures QuoteSafe("Exception") && QuoteSafe("程序异常 (Exception x3)")
    ensures QuoteSafe("失败") && QuoteSafe("操作失败报警")
  {
  }

  /** No keyword or message of the fixed rule list holds a quote, a backslash or a line break. */
  lemma GlobalRulesQuoteSafe()
    ensures forall i :: 0 <= i < |GlobalRules| ==> RuleQuoteSafe(GlobalRules[i])
  {
    GlobalRuleTextsQuoteSafe();
    forall i | 0 <= i < |GlobalRules| ensures RuleQuoteSafe(GlobalRules[i]) {
      if i == 0 {
        assert GlobalRules[0] == MonitorRule("Error", 3, "严重错误 (Error x3)");
      } else if i == 1 {
        assert GlobalRules[1] == MonitorRule("Timeout", 3, "网络超时 (Timeout x3)");
      } else if i == 2 {
        assert GlobalRules[2] == MonitorRule("Exception", 3, "程序异常 (Exception x3)");
      } else {
        assert GlobalRules[3] == MonitorRule("失败", 3, "操作失败报警");
      }
    }
  }

  /** The script injected on every page reads the fixed rule list back unchanged. */
  lemma InjectedRulesAreGlobalRules()
    ensures ReadRules(RulesLiteral(GlobalRules)) == Some(GlobalRules)
  {
    GlobalRulesQuoteSafe();
    RulesLiteralRoundTrip(GlobalRules);
  }

  class MainActivity {
    const tabs: TabStrip<Page>
    const history: HistoryList
    const gate: CooldownGate
    const credentials: CredentialStore

    /**
     * `onCreate`: no tabs yet and `lastNotifyTime` 0; the history is reloaded from the
     * stored "HISTORY_V2" set (None when nothing was stored), and the "AuthPrefs" file
     * holds what earlier launches saved.
     */
    constructor (storedHistory: Option<set<string>>, authPrefs: map<string, string>)
      ensures fresh(tabs) && fresh(history) && fresh(gate) && fresh(credentials)
      ensures tabs.tabs == [] && tabs.currentTabIndex == -1 && tabs.Valid()
      ensures gate.lastNotifyTime == 0 && credentials.prefs == authPrefs
      ensures Distinct(history.items)
      ensures forall y :: y in history.items <==> storedHistory.Some? && y in storedHistory.value
    {
      tabs := new TabStrip<Page>();
      history := new HistoryList();
      gate := new CooldownGate();
      credentials := new CredentialStore(authPrefs);
      new;
      history.Reload(storedHistory);
    }

    /**
     * The "打开" button: an empty address changes nothing; otherwise the request is
     * opened.
     */
    method Go(aliasText: string, urlText: string, portText: string) returns (started: Option<ServiceStart>)
      modifies tabs, history
      ensures var req := NormalizeRequest(aliasText, urlText, portText);
              req.None? ==>
                started == None && tabs.tabs == old(tabs.tabs)
                && tabs.currentTabIndex == old(tabs.currentTabIndex) && history.items == old(history.items)
      ensures var req := NormalizeRequest(aliasText, urlText, portText);
              req.Some? ==>
                started == Some(ServiceStart(req.value.alias, req.value.url))
                && history.items == MoveToFront(old(history.items), EncodeEntry(req.value.alias, req.value.url))
                && tabs.tabs == old(tabs.tabs) + [Page(req.value.alias, req.value.url)]
                && tabs.currentTabIndex == |old(tabs.tabs)|
    {
      var req := NormalizeRequest(aliasText, urlText, portText);
      if req.None? {
        return None;
      }
      var start := Open(req.value);
      started := Some(start);
    }

    /**
     * Opening a request: the item "alias|address" moves to the front of the history,
     * the keep-alive service is started with the pair, and a new page opens and is
     * selected.
     */
    method Open(req: Request) returns (started: ServiceStart)
      modifies tabs, history
      ensures started == ServiceStart(req.alias, req.url)
      ensures history.items == MoveToFront(old(history.items), EncodeEntry(req.alias, req.url))
      ensures tabs.tabs == old(tabs.tabs) + [Page(req.alias, req.url)]
      ensures tabs.currentTabIndex == |old(tabs.tabs)|
    {
      history.Add(EncodeEntry(req.alias, req.url));
      started := ServiceStart(req.alias, req.url);
      tabs.Create(Page(req.alias, req.url));
    }

    /**
     * A click on a history item: an item with '|' starts the service and opens its
     * page; an item without one opens the whole item as an address named "未命名".
     */
    method OpenHistoryItem(position: nat) returns (started: Option<ServiceStart>)
      requires position < |history.items|
      modifies tabs
      ensures var e := DecodeEntry(history.items[position]);
              tabs.tabs == old(tabs.tabs) + [Page(e.alias, e.url)]
              && tabs.currentTabIndex == |old(tabs.tabs)|
              && started == if Separator in history.items[position] then Some(ServiceStart(e.alias, e.url)) else None
    {
      var item := history.items[position];
      var e := DecodeEntry(item);
      if Separator in item {
        started := Some(ServiceStart(e.alias, e.url));
      } else {
        started := None;
      }
      tabs.Create(Page(e.alias, e.url));
    }

    /** A long click on a history item removes it. */
    method RemoveHistoryItem(position: nat)
      requires position < |history.items|
      modifies history
      ensures history.items == old(history.items)[..position] + old(history.items)[position + 1..]
    {
      history.RemoveAt(position);
    }

    /**
     * `onReceivedHttpAuthRequest` on a page: a readable pair saved for `host ?: ""` is
     * used at once; otherwise the login dialog's answer (None for "取消") is saved and
     * used, or the request is cancelled.
     */
    method AuthRequest(host: Option<string>, prompt: Option<(string, string)>) returns (answer: AuthAnswer)
      modifies credentials
      ensures var saved := LookupCredentials(old(credentials.prefs), host.GetOr(""));
              saved.Some? ==> answer == Proceed(saved.value.0, saved.value.1) && credentials.prefs == old(credentials.prefs)
      ensures var saved := LookupCredentials(old(credentials.prefs), host.GetOr(""));
              saved.None? && prompt.None? ==> answer == Cancel && credentials.prefs == old(credentials.prefs)
      ensures var saved := LookupCredentials(old(credentials.prefs), host.GetOr(""));
              saved.None? && prompt.Some? ==>
                answer == Proceed(prompt.value.0, prompt.value.1)
                && credentials.prefs == old(credentials.prefs)[host.GetOr("") := EncodeCredentials(prompt.value.0, prompt.value.1)]
    {
      answer := credentials.AnswerAuthRequest(host, prompt);
    }

    /** A choice in the switch dialog. */
    method SwitchToTab(index: int)
      modifies tabs
      ensures tabs.tabs == old(tabs.tabs)
      ensures tabs.currentTabIndex == if 0 <= index < |tabs.tabs| then index else old(tabs.currentTabIndex)
    {
      tabs.SwitchTo(index);
    }

    /** The "关闭" button. */
    method CloseCurrentTab()
      requires tabs.Valid()
      modifies tabs
      ensures tabs.Valid()
      ensures old(tabs.currentTabIndex) == -1 ==> tabs.tabs == old(tabs.tabs) && tabs.currentTabIndex == -1
      ensures old(tabs.currentTabIndex) != -1 ==>
                tabs.tabs == RemoveAt(old(tabs.tabs), old(tabs.currentTabIndex))
                && tabs.currentTabIndex == CursorAfterClose(old(tabs.currentTabIndex), |tabs.tabs|)
    {
      var _ := tabs.CloseCurrent();
    }

    /** One tick of the injected script on a page with this body text. */
    method MonitorTick(bodyText: string) returns (posted: Option<string>)
      ensures posted == FirstAlert(Window(bodyText), GlobalRules)
    {
      posted := TickFirst(bodyText, GlobalRules);
    }

    /** `postMessage` from a page's script, decided at time `now`. */
    method PostMessage(alertMessage: string, now: int) returns (sent: Option<Notification>)
      modifies gate
      ensures sent == if CooledDown(old(gate.lastNotifyTime), now) then Some(Notification(AlertTitle, alertMessage)) else None
      ensures gate.lastNotifyTime == if sent.Some? then now else old(gate.lastNotifyTime)
    {
      var delivered := gate.Admit(now);
      sent := if delivered then Some(Notification(AlertTitle, alertMessage)) else None;
    }

    /**
     * A page has finished loading: a "运行状态" notification naming the page's alias,
     * sent whatever the cooldown and leaving `lastNotifyTime` as it was.
     */
    method PageFinished(alias: string) returns (sent: Notification)
      ensures sent.title == StatusTitle
      ensures exists i :: 0 <= i <= |sent.text| && alias <= sent.text[i..]
    {
      sent := PageLoadedNotification(alias);
      assert alias <= sent.text[4..] by {
        assert sent.text[4..][..|alias|] == sent.text[4..4 + |alias|];
      }
    }
  }
}
