/**
 * The later revision of the activity: every tab carries its own configuration (id,
 * alias, address, rule list, whether it shows in the keep-alive notification). Every
 * rule of a tab that fires in a tick posts its message; one cooldown field is shared
 * by all tabs.
 */
module PerTabActivity {
  import opened Wrappers
  import opened Text
  import opened Rules
  import opened Monitor
  import opened Cooldown
  import opened History
  import opened Credentials
  import opened Tabs
  import opened Urls

  /** `TabConfig`; the id is the random UUID text, passed in by the caller. */
  datatype TabConfig = TabConfig(id: string, alias: string, url: string, rules: seq<MonitorRule>, isNotifyActive: bool)

  /** The extras of an `ACTION_UPDATE` intent: "TAB_ID", "TAB_TEXT" when present, "REMOVE". */
  datatype ServiceUpdate = ServiceUpdate(tabId: string, tabText: Option<string>, remove: bool)

  /** The status text of a tab shown in the keep-alive notification. */
  function RunningText(alias: string): string {
    alias + ": 运行中"
  }

  /** `updateService(config)`: show the tab's status line when active, else remove it. */
  function StatusUpdate(c: TabConfig): (u: ServiceUpdate)
    ensures u.tabId == c.id
    ensures u.remove <==> !c.isNotifyActive
    ensures u.tabText.Some? <==> c.isNotifyActive
    ensures c.isNotifyActive ==> u.tabText == Some(RunningText(c.alias))
  {
    if c.isNotifyActive then ServiceUpdate(c.id, Some(RunningText(c.alias)), false)
    else ServiceUpdate(c.id, None, true)
  }

  /** The configuration with its notification switch flipped. */
  function Toggled(c: TabConfig): (t: TabConfig)
    ensures t.isNotifyActive != c.isNotifyActive
    ensures t.(isNotifyActive := c.isNotifyActive) == c
  {
    c.(isNotifyActive := !c.isNotifyActive)
  }

  /**
   * Toggling twice restores the configuration, and the two updates it sends are one
   * "show" and one "remove" for the same tab.
   */
  lemma ToggleTwice(c: TabConfig)
    ensures Toggled(Toggled(c)) == c
    ensures StatusUpdate(Toggled(c)).tabId == StatusUpdate(Toggled(Toggled(c))).tabId
    ensures StatusUpdate(Toggled(c)).remove != StatusUpdate(Toggled(Toggled(c))).remove
  {
  }

  /** The alias of a tab opened with a blank alias field: "标签 {n+1}" for n open tabs. */
  function DefaultAlias(tabCount: nat): string {
    "标签 " + NatToString(tabCount + 1)
  }

  /**
   * The configuration the "打开" button builds: nothing when the trimmed address is
   * empty; a blank alias is numbered after the open tabs; the address gets a scheme;
   * the rules start as the template; the tab is not in the notification.
   */
  function NewTabConfig(aliasText: string, urlText: string, tabCount: nat, id: string): (r: Option<TabConfig>)
    ensures r.None? <==> IsBlank(urlText)
    ensures r.Some? && IsBlank(aliasText) ==> r.value.alias == DefaultAlias(tabCount)
    ensures r.Some? && !IsBlank(aliasText) ==> r.value.alias == Trim(aliasText)
    ensures r.Some? ==> HasScheme(r.value.url) && r.value.id == id
    ensures r.Some? ==> r.value.url == WithScheme(Trim(urlText))
    ensures r.Some? ==> r.value.rules == DefaultRules && !r.value.isNotifyActive
  {
    var alias := if Trim(aliasText) == [] then DefaultAlias(tabCount) else Trim(aliasText);
    var url := Trim(urlText);
    if url == [] then None
    else Some(TabConfig(id, alias, WithScheme(url), DefaultRules, false))
  }

  /** A blank alias is numbered distinctly from the other blank-alias tabs of other counts. */
  lemma {:induction false} DefaultAliasesDiffer(m: nat, n: nat)
    requires m != n
    ensures DefaultAlias(m) != DefaultAlias(n)
  {
    NatToStringInjective(m + 1, n + 1);
    var p := "标签 ";
    assert DefaultAlias(m)[|p|..] == NatToString(m + 1);
    assert DefaultAlias(n)[|p|..] == NatToString(n + 1);
  }

  /** The script injected into a new tab reads its template rules back unchanged. */
  lemma InjectedRulesAreDefaultRules()
    ensures ReadRules(RulesLiteral(DefaultRules)) == Some(DefaultRules)
  {
    forall i | 0 <= i < |DefaultRules| ensures RuleQuoteSafe(DefaultRules[i]) {
      var r := DefaultRules[i];
      assert QuoteSafe(r.keyword) && QuoteSafe(r.alertMessage);
    }
    RulesLiteralRoundTrip(DefaultRules);
  }

  /**
   * Each message a tick posts is decided in its own main-thread runnable, which reads
   * the clock for itself. When those runnables all run within one cooldown period of
   * the tick's start, at most one of the tick's messages becomes a notification.
   */
  lemma OneNotificationPerTick(lastNotifyTime: int, window: string, rules: seq<MonitorRule>, start: int, times: seq<int>)
    requires |times| == |Alerts(window, rules)|
    requires forall i :: 0 <= i < |times| ==> start <= times[i] <= start + NotifyCooldownMs
    ensures |Decisions(lastNotifyTime, times)| == |Alerts(window, rules)|
    ensures forall i, j :: 0 <= i < j < |times| && Decisions(lastNotifyTime, times)[i] ==>
              !Decisions(lastNotifyTime, times)[j]
  {
    AtMostOneWithinCooldown(lastNotifyTime, times, start);
  }

  class MainActivity {
    const tabs: TabStrip<TabConfig>
    const history: HistoryList
    const gate: CooldownGate
    const credentials: CredentialStore

    /**
     * `onCreate`: no tabs yet and `lastNotifyTime` 0; the history is reloaded from the
     * stored "HISTORY_V2" set (None when nothing was stored), and the "AuthPrefs" file
     * holds what earlier launches saved.
     */
    constructor (storedHistory: Option<set<string>>, authPrefs: map<string, string>)
      ensures fresh(tabs) && fresh(history) && fresh(gate) && fresh(credentials)
      ensures tabs.tabs == [] && tabs.currentTabIndex == -1 && tabs.Valid()
      ensures gate.lastNotifyTime == 0 && credentials.prefs == authPrefs
      ensures Distinct(history.items)
      ensures forall y :: y in history.items <==> storedHistory.Some? && y in storedHistory.value
    {
      tabs := new TabStrip<TabConfig>();
      history := new HistoryList();
      gate := new CooldownGate();
      credentials := new CredentialStore(authPrefs);
      new;
      history.Reload(storedHistory);
    }

    /**
     * The "打开" button: an empty address changes nothing; otherwise "alias|address"
     * moves to the front of the history and a tab with a fresh configuration holding
     * its own copy of the template rules opens and is selected.
     */
    method Go(aliasText: string, urlText: string, id: string)
      modifies tabs, history
      ensures var c := NewTabConfig(aliasText, urlText, |old(tabs.tabs)|, id);
              c.None? ==>
                tabs.tabs == old(tabs.tabs) && tabs.currentTabIndex == old(tabs.currentTabIndex)
                && history.items == old(history.items)
      ensures var c := NewTabConfig(aliasText, urlText, |old(tabs.tabs)|, id);
              c.Some? ==>
                history.items == MoveToFront(old(history.items), EncodeEntry(c.value.alias, c.value.url))
                && tabs.tabs == old(tabs.tabs) + [c.value]
                && tabs.currentTabIndex == |old(tabs.tabs)|
    {
      var c := NewTabConfig(aliasText, urlText, |tabs.tabs|, id);
      if c.None? {
        return;
      }
      history.Add(EncodeEntry(c.value.alias, c.value.url));
      tabs.Create(c.value);
    }

    /**
     * A click on a history item opens a tab with the decoded alias and address as they
     * are and the template rules; the history is not reordered.
     */
    method OpenHistoryItem(position: nat, id: string)
      requires position < |history.items|
      modifies tabs
      ensures var e := DecodeEntry(history.items[position]);
              tabs.tabs == old(tabs.tabs) + [TabConfig(id, e.alias, e.url, DefaultRules, false)]
              && tabs.currentTabIndex == |old(tabs.tabs)|
    {
      var e := DecodeEntry(history.items[position]);
      tabs.Create(TabConfig(id, e.alias, e.url, DefaultRules, false));
    }

    /**
     * `onReceivedHttpAuthRequest` on a page: a readable pair saved for `host ?: ""` is
     * used at once; otherwise the login dialog's answer (None for "取消") is saved and
     * used, or the request is cancelled.
     */
    method AuthRequest(host: Option<string>, prompt: Option<(string, string)>) returns (answer: AuthAnswer)
      modifies credentials
      ensures var saved := LookupCredentials(old(credentials.prefs), host.GetOr(""));
              saved.Some? ==> answer == Proceed(saved.value.0, saved.value.1) && credentials.prefs == old(credentials.prefs)
      ensures var saved := LookupCredentials(old(credentials.prefs), host.GetOr(""));
              saved.None? && prompt.None? ==> answer == Cancel && credentials.prefs == old(credentials.prefs)
      ensures var saved := LookupCredentials(old(credentials.prefs), host.GetOr(""));
              saved.None? && prompt.Some? ==>
                answer == Proceed(prompt.value.0, prompt.value.1)
                && credentials.prefs == old(credentials.prefs)[host.GetOr("") := EncodeCredentials(prompt.value.0, prompt.value.1)]
    {
      answer := credentials.AnswerAuthRequest(host, prompt);
    }

    /** A choice in the switch dialog. */
    method SwitchToTab(index: int)
      modifies tabs
      ensures tabs.tabs == old(tabs.tabs)
      ensures tabs.currentTabIndex == if 0 <= index < |tabs.tabs| then index else old(tabs.currentTabIndex)
    {
      tabs.SwitchTo(index);
    }

    /**
     * The "保活" button: flips the selected tab's notification switch and sends its
     * status update; with no tab selected nothing happens.
     */
    method ToggleNotificationStatus() returns (update: Option<ServiceUpdate>)
      requires tabs.Valid()
      modifies tabs
      ensures tabs.Valid() && tabs.currentTabIndex == old(tabs.currentTabIndex)
      ensures old(tabs.currentTabIndex) == -1 ==> update == None && tabs.tabs == old(tabs.tabs)
      ensures old(tabs.currentTabIndex) != -1 ==>
                var c := Toggled(old(tabs.tabs)[old(tabs.currentTabIndex)]);
                tabs.tabs == old(tabs.tabs)[old(tabs.currentTabIndex) := c] && update == Some(StatusUpdate(c))
    {
      var current := tabs.Current();
      if current.None? {
        return None;
      }
      var c := Toggled(current.value);
      tabs.ReplaceCurrent(c);
      update := Some(StatusUpdate(c));
    }

    /**
     * The "添加" button of the rule dialog: the selected tab's rule list gets the new
     * rule at its end (nothing when the keyword is empty); no other tab changes.
     */
    method AddRule(keyText: string, countText: string, msgText: string)
      requires tabs.Valid()
      modifies tabs
      ensures tabs.Valid() && tabs.currentTabIndex == old(tabs.currentTabIndex) && |tabs.tabs| == |old(tabs.tabs)|
      ensures old(tabs.currentTabIndex) == -1 ==> tabs.tabs == old(tabs.tabs)
      ensures forall j :: 0 <= j < |tabs.tabs| && j != tabs.currentTabIndex ==> tabs.tabs[j] == old(tabs.tabs)[j]
      ensures old(tabs.currentTabIndex) != -1 ==>
                var c := old(tabs.tabs)[old(tabs.currentTabIndex)];
                tabs.tabs[tabs.currentTabIndex] == c.(rules := Rules.AddRule(c.rules, keyText, countText, msgText))
    {
      var current := tabs.Current();
      if current.None? {
        return;
      }
      var c := current.value;
      tabs.ReplaceCurrent(c.(rules := Rules.AddRule(c.rules, keyText, countText, msgText)));
    }

    /**
     * The "关闭" button: a tab in the notification is first switched off there
     * (a removal update), then the selected tab is closed.
     */
    method CloseCurrentTab() returns (update: Option<ServiceUpdate>)
      requires tabs.Valid()
      modifies tabs
      ensures tabs.Valid()
      ensures old(tabs.currentTabIndex) == -1 ==>
                update == None && tabs.tabs == old(tabs.tabs) && tabs.currentTabIndex == -1
      ensures old(tabs.currentTabIndex) != -1 ==>
                var c := old(tabs.tabs)[old(tabs.currentTabIndex)];
                update == (if c.isNotifyActive then Some(ServiceUpdate(c.id, None, true)) else None)
                && tabs.tabs == RemoveAt(old(tabs.tabs), old(tabs.currentTabIndex))
                && tabs.currentTabIndex == CursorAfterClose(old(tabs.currentTabIndex), |tabs.tabs|)
    {
      var current := tabs.Current();
      if current.None? {
        return None;
      }
      var c := current.value;
      if c.isNotifyActive {
        update := Some(StatusUpdate(c.(isNotifyActive := false)));
      } else {
        update := None;
      }
      var _ := tabs.CloseCurrent();
    }

    /** One tick of the script injected into tab `i`, with that tab's own rules. */
    method MonitorTick(i: nat, bodyText: string) returns (posted: seq<string>)
      requires i < |tabs.tabs|
      ensures posted == Alerts(Window(bodyText), tabs.tabs[i].rules)
    {
      posted := TickAll(bodyText, tabs.tabs[i].rules);
    }

    /** `postMessage` from the script of the tab named `tabAlias`, decided at `now`. */
    method PostMessage(tabAlias: string, alertMessage: string, now: int) returns (sent: Option<Notification>)
      modifies gate
      ensures sent == if CooledDown(old(gate.lastNotifyTime), now)
                      then Some(Notification("[" + tabAlias + "] 报警", alertMessage)) else None
      ensures gate.lastNotifyTime == if sent.Some? then now else old(gate.lastNotifyTime)
    {
      var delivered := gate.Admit(now);
      sent := if delivered then Some(Notification("[" + tabAlias + "] 报警", alertMessage)) else None;
    }
  }
}
