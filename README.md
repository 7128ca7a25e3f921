# Web page keep-alive monitor: a Dafny model of its activity core

The Android app opens web pages in tabs. It keeps a history of visited addresses and
answers HTTP logins from a per-host credential cache. Into each page it injects a
small JavaScript monitor. Every tick, the monitor looks at the last 50 lines of the
page text. It counts each rule's keyword in them and posts the rule's message when
the count reaches the rule's threshold. A posted message becomes a notification only
when more than 60000 ms have passed since the last delivered one.

The repository holds two revisions of the same `MainActivity`, and both are modelled:

- `MainActivity.kt` is the earlier revision, modelled in module `GlobalRulesActivity`.
  - One fixed rule list (`RULES`) serves every page.
  - The home screen has an optional port field.
  - A tick stops at the first firing rule (`break`).
- `KeepAliveService.kt` is the later revision, modelled in module `PerTabActivity`.
  - Every tab carries its own `TabConfig`: id, alias, url, rules, and whether it shows
    in the keep-alive notification.
  - New tabs copy the `DEFAULT_RULES` template.
  - A tick posts the message of every firing rule.

The shared logic lives in these modules:

- `Text`: the Kotlin and JavaScript string operations the code calls.
  - `trim`, `split`, `joinToString`/`join`, `substringAfterLast` and `all { isDigit() }`.
  - `toIntOrNull` and `Int.toString`.
  - `slice(-50)`, and the match count of `new RegExp(keyword, "g")`.
- `Rules`: the rule record and the two templates, the add-rule dialog's defaults, and
  the JavaScript object-literal text of a rule list, with a reader for it.
- `Monitor`: the 50-line window and one tick.
  - The specification functions are `Alerts` (no early exit) and `FirstAlert` (first
    match), and the loops `PostAll` and `PostFirst` are proved against them.
- `Cooldown`: the `lastNotifyTime` gate as a class, and the sequence of decisions
  over a run of alerts.
- `History`: the history list as a class: move-to-front, removal, and the
  order-losing save and reload through a string set. Also the "alias|url" item codec.
- `Credentials`: the "AuthPrefs" map as a class, the "user:pass" codec and the
  auth-request handler.
- `Tabs`: a generic tab strip: the ordered tab list and its `currentTabIndex` cursor,
  with create, switch, replace and close.
- `Urls`: the scheme and port rules for a typed address, each as written and as
  evidently intended (see Findings).

State that the source updates in place is modelled as classes whose methods change
their fields: the tab list and cursor, the history list, the credential map and
`lastNotifyTime`. A tab's `TabConfig` is a value in the tab list. Flipping its switch
or adding a rule replaces the selected element. The string handling, the
normalisation of a request and a monitor tick's result are functions, with lemmas
about them. Clock readings (`System.currentTimeMillis()`), the random tab id
(`UUID.randomUUID()`), the login prompt's answer and the page text are parameters.

`lastNotifyTime` starts at 0 and the test is a strict `>`, so an alert at any time up
to 60000 is dropped (`Cooldown.CooldownGate.constructor`, `Cooldown.DeliveredAfterStart`).

## Model

| member | source | states |
|---|---|---|
| Text.Trim | app/src/main/java/com/ncorti/kotlin/template/app/MainActivity.kt:79-81 | The trimmed text is the slice of the input between a blank prefix and a blank suffix, and starts and ends with a non-whitespace character; it is empty exactly when the field is blank. |
| Text.TrimIdempotent | app/src/main/java/com/ncorti/kotlin/template/app/MainActivity.kt:79-81 | Trimming an already trimmed field changes nothing. |
| Text.Split | app/src/main/java/com/ncorti/kotlin/template/app/MainActivity.kt:182 | `split` yields one more piece than there are delimiters, a single piece exactly when the delimiter is absent, and no piece holds the delimiter. |
| Text.JoinSplit | app/src/main/java/com/ncorti/kotlin/template/app/KeepAliveService.kt:289 | Joining the pieces of `split('\n')` with '\n' gives the text back. |
| Text.SplitJoin | app/src/main/java/com/ncorti/kotlin/template/app/KeepAliveService.kt:289 | Splitting the join of delimiter-free pieces gives the same pieces back. |
| Text.SplitAround | app/src/main/java/com/ncorti/kotlin/template/app/MainActivity.kt:182 | The pieces of `a + d + b` are the pieces of `a` followed by the pieces of `b`. |
| Text.JoinCut | app/src/main/java/com/ncorti/kotlin/template/app/KeepAliveService.kt:289 | Joining a list is joining its two halves around one more separator. |
| Text.AfterLast | app/src/main/java/com/ncorti/kotlin/template/app/MainActivity.kt:87 | `substringAfterLast(d)` is a suffix free of `d`; when it is not the whole text, a `d` stands right before it. |
| Text.AfterLastConcat | app/src/main/java/com/ncorti/kotlin/template/app/MainActivity.kt:87 | What follows the last `d` of `a + b` is that of `b` when `b` holds a `d`, and that of `a` followed by `b` otherwise. |
| Text.LastN | app/src/main/java/com/ncorti/kotlin/template/app/KeepAliveService.kt:289 | `slice(-n)` keeps the last min(n, length) elements in order. |
| Text.IntRoundTrip | app/src/main/java/com/ncorti/kotlin/template/app/KeepAliveService.kt:264 | `toIntOrNull` of the decimal text of any `Int` is that `Int`. |
| Text.NatToStringInjective | app/src/main/java/com/ncorti/kotlin/template/app/KeepAliveService.kt:116 | Different numbers have different decimal texts. |
| Text.Occurrences | app/src/main/java/com/ncorti/kotlin/template/app/KeepAliveService.kt:292-293 | A non-empty keyword matches at most once per character of the window. |
| Text.OccurrencesFit | app/src/main/java/com/ncorti/kotlin/template/app/KeepAliveService.kt:292-293 | The matches of a non-empty keyword do not overlap: their total length fits in the window. |
| Text.OccurrencesPositive | app/src/main/java/com/ncorti/kotlin/template/app/KeepAliveService.kt:292-293 | A non-empty keyword has a match exactly when it occurs at some position of the window. |
| Rules.NewRule | app/src/main/java/com/ncorti/kotlin/template/app/KeepAliveService.kt:262-266 | No rule exactly when the keyword is empty; otherwise the keyword as typed, the parsed count when it is an `Int` and 1 when not, and the typed message, or "发现 {keyword}" when it is empty. |
| Rules.AddRule | app/src/main/java/com/ncorti/kotlin/template/app/KeepAliveService.kt:262-268 | An empty keyword leaves the list unchanged; otherwise the new rule is appended and every earlier rule is kept. |
| Rules.TypedThreshold | app/src/main/java/com/ncorti/kotlin/template/app/KeepAliveService.kt:264 | A count typed as the decimal text of an `Int` becomes the new rule's threshold. |
| Rules.RulesLiteral | app/src/main/java/com/ncorti/kotlin/template/app/KeepAliveService.kt:278-280 | The literal is bracketed, and it is "[]" exactly for the empty list. |
| Rules.ReadRuleOf | app/src/main/java/com/ncorti/kotlin/template/app/KeepAliveService.kt:279 | A rule literal whose texts hold no quote, backslash or line break reads back as the same rule, leaving what follows. |
| Rules.ReadItemsOf | app/src/main/java/com/ncorti/kotlin/template/app/KeepAliveService.kt:278-280 | A comma-joined list of such rule literals reads back as the same rules, in order. |
| Rules.RulesLiteralRoundTrip | app/src/main/java/com/ncorti/kotlin/template/app/KeepAliveService.kt:278-280 | The script reads the injected literal back as the very rule list it was made from, when no text holds a quote, backslash or line break. |
| Monitor.WindowIsLastLines | app/src/main/java/com/ncorti/kotlin/template/app/KeepAliveService.kt:289 | The window's lines are the last min(50, n) lines of the page text, in order. |
| Monitor.WindowIsSuffix | app/src/main/java/com/ncorti/kotlin/template/app/KeepAliveService.kt:289 | The window is a suffix of the page text, and the whole text when it has at most 50 lines. |
| Monitor.AlertsAppend | app/src/main/java/com/ncorti/kotlin/template/app/KeepAliveService.kt:291-297 | The alerts of a longer rule list are those of the earlier rules followed by those of the later ones. |
| Monitor.AlertsAreFiringMessages | app/src/main/java/com/ncorti/kotlin/template/app/KeepAliveService.kt:291-297 | Every firing rule's message is posted and nothing else is; at most one message per rule; nothing is posted exactly when no rule fires. |
| Monitor.FirstAlertIsFirstOfAlerts | app/src/main/java/com/ncorti/kotlin/template/app/MainActivity.kt:253-258 | The tick that stops at the first match posts the first of the messages the tick without `break` posts, and nothing when that posts nothing. |
| Monitor.PostAll | app/src/main/java/com/ncorti/kotlin/template/app/KeepAliveService.kt:291-297 | The rule loop without `break` posts exactly `Alerts` of the window. |
| Monitor.TickAll | app/src/main/java/com/ncorti/kotlin/template/app/KeepAliveService.kt:287-298 | One tick of the later script posts `Alerts` of the 50-line window of the page text. |
| Monitor.PostFirst | app/src/main/java/com/ncorti/kotlin/template/app/MainActivity.kt:253-258 | The rule loop with `break` posts exactly `FirstAlert` of the window. |
| Monitor.TickFirst | app/src/main/java/com/ncorti/kotlin/template/app/MainActivity.kt:249-259 | One tick of the earlier script posts `FirstAlert` of the 50-line window of the page text. |
| Cooldown.CooldownGate.constructor | app/src/main/java/com/ncorti/kotlin/template/app/MainActivity.kt:37 | `lastNotifyTime` starts at 0. |
| Cooldown.CooldownGate.Admit | app/src/main/java/com/ncorti/kotlin/template/app/MainActivity.kt:235-239 | An alert is delivered exactly when `now - lastNotifyTime > 60000`, and only a delivery moves `lastNotifyTime`, to `now`. |
| Cooldown.CooldownGate.AdmitAll | app/src/main/java/com/ncorti/kotlin/template/app/MainActivity.kt:233-240 | A run of alerts decided one by one by the gate yields exactly `Decisions` from the starting `lastNotifyTime`, so the spacing lemmas hold of the gate. |
| Cooldown.DecisionsLength | app/src/main/java/com/ncorti/kotlin/template/app/MainActivity.kt:233-240 | One decision per alert. |
| Cooldown.DeliveredAfterStart | app/src/main/java/com/ncorti/kotlin/template/app/MainActivity.kt:236 | Every delivered alert comes more than 60000 ms after the starting `lastNotifyTime`. |
| Cooldown.DeliveriesAreSpaced | app/src/main/java/com/ncorti/kotlin/template/app/MainActivity.kt:233-240 | Any two delivered alerts are more than 60000 ms apart. |
| Cooldown.AtMostOneWithinCooldown | app/src/main/java/com/ncorti/kotlin/template/app/MainActivity.kt:233-240 | Alerts all arriving within one 60000 ms span produce at most one notification. |
| History.DecodeEntry | app/src/main/java/com/ncorti/kotlin/template/app/MainActivity.kt:206-213 | An item without '\|' opens as "未命名" with the whole item as address; with one, the alias is the text before the first '\|' and the url the text after it up to the next '\|' or the end. |
| History.EntryRoundTrip | app/src/main/java/com/ncorti/kotlin/template/app/MainActivity.kt:90 | Decoding "alias\|url" gives back (alias, url) exactly when neither holds a '\|'. |
| History.RemoveFirst | app/src/main/java/com/ncorti/kotlin/template/app/MainActivity.kt:221 | `remove(item)` changes nothing when the item is absent, and otherwise drops exactly one occurrence of it. |
| History.MoveToFrontOrder | app/src/main/java/com/ncorti/kotlin/template/app/MainActivity.kt:220-223 | After `addToHistory` the item is at index 0, followed by the other items in their old order with its first old occurrence removed. |
| History.MoveToFrontContents | app/src/main/java/com/ncorti/kotlin/template/app/MainActivity.kt:220-223 | `addToHistory` adds the item when it was missing and otherwise keeps the same items. |
| History.MoveToFrontKeepsDistinct | app/src/main/java/com/ncorti/kotlin/template/app/MainActivity.kt:220-223 | A duplicate-free history stays duplicate-free, with the added item present exactly once. |
| History.MoveToFrontIdempotent | app/src/main/java/com/ncorti/kotlin/template/app/MainActivity.kt:220-223 | Adding the same item twice in a row is adding it once. |
| History.HistoryList.Add | app/src/main/java/com/ncorti/kotlin/template/app/MainActivity.kt:220-223 | The list becomes `MoveToFront` of the old list. |
| History.HistoryList.RemoveAt | app/src/main/java/com/ncorti/kotlin/template/app/MainActivity.kt:216 | Exactly the item at the position is removed; the others keep their order. |
| History.HistoryList.Saved | app/src/main/java/com/ncorti/kotlin/template/app/MainActivity.kt:224 | The stored set holds exactly the list's items. |
| History.HistoryList.Reload | app/src/main/java/com/ncorti/kotlin/template/app/MainActivity.kt:225-228 | After loading, the list is duplicate-free and holds exactly the stored items, or nothing when none were stored. |
| History.ReloadIsPermutation | app/src/main/java/com/ncorti/kotlin/template/app/MainActivity.kt:224-228 | Saving and reloading a duplicate-free history gives back the same items, perhaps in another order. |
| Credentials.ParseCredentials | app/src/main/java/com/ncorti/kotlin/template/app/MainActivity.kt:182-184 | A pair exactly when the saved text holds one ':'; then neither part holds a ':' and the pair encodes back to the saved text. |
| Credentials.CredentialsRoundTrip | app/src/main/java/com/ncorti/kotlin/template/app/MainActivity.kt:174-185 | Saving then reading gives back (user, pass) exactly when neither holds a ':'. |
| Credentials.LookupCredentials | app/src/main/java/com/ncorti/kotlin/template/app/MainActivity.kt:179-185 | An unknown host reads nothing; a pair read back is what is stored for that host. |
| Credentials.SaveThenLookup | app/src/main/java/com/ncorti/kotlin/template/app/MainActivity.kt:174-185 | After saving for a host, that host reads the pair back exactly when neither part holds a ':', and every other host reads what it did before. |
| Credentials.CredentialStore.SaveCredentials | app/src/main/java/com/ncorti/kotlin/template/app/MainActivity.kt:174-177 | The host's entry becomes "user:pass" and no other entry changes; afterwards the host reads the pair back exactly when neither part holds a ':', and every other host reads what it read before. |
| Credentials.CredentialStore.AnswerAuthRequest | app/src/main/java/com/ncorti/kotlin/template/app/MainActivity.kt:139-162 | Keyed by `host ?: ""`: a readable saved pair is used without saving; otherwise the prompt's pair is saved and used, and a cancelled prompt cancels and saves nothing. |
| Tabs.RemoveAt | app/src/main/java/com/ncorti/kotlin/template/app/KeepAliveService.kt:354 | `removeAt(i)` drops exactly the i-th tab; the tabs before keep their index and the ones after move down by one. |
| Tabs.CursorAfterClose | app/src/main/java/com/ncorti/kotlin/template/app/KeepAliveService.kt:357-358 | The cursor is -1 exactly when no tab is left, and otherwise a valid index. |
| Tabs.CloseSelectsNeighbour | app/src/main/java/com/ncorti/kotlin/template/app/KeepAliveService.kt:357-358 | After a close, the selected tab is the closed tab's left neighbour, or the tab that was to its right when the first tab was closed. |
| Tabs.TabStrip.constructor | app/src/main/java/com/ncorti/kotlin/template/app/KeepAliveService.kt:70-72 | No tabs and cursor -1. |
| Tabs.TabStrip.Current | app/src/main/java/com/ncorti/kotlin/template/app/KeepAliveService.kt:146 | No tab exactly when the cursor is -1; otherwise the tab at the cursor. |
| Tabs.TabStrip.SwitchTo | app/src/main/java/com/ncorti/kotlin/template/app/KeepAliveService.kt:320-329 | An index outside the list changes nothing; otherwise the cursor becomes the index; the cursor stays -1 or valid. |
| Tabs.TabStrip.Create | app/src/main/java/com/ncorti/kotlin/template/app/KeepAliveService.kt:150-161 | The tab is appended and selected: the cursor becomes the old tab count. |
| Tabs.TabStrip.ReplaceCurrent | app/src/main/java/com/ncorti/kotlin/template/app/KeepAliveService.kt:197 | Only the selected tab changes; the cursor stays. |
| Tabs.TabStrip.CloseCurrent | app/src/main/java/com/ncorti/kotlin/template/app/KeepAliveService.kt:341-358 | With no selection nothing changes; otherwise exactly the selected tab is removed and the cursor moves as `CursorAfterClose` says. |
| Urls.WithScheme | app/src/main/java/com/ncorti/kotlin/template/app/MainActivity.kt:86 | The result has an http or https scheme; an address with one is unchanged, and any other gets "http://" in front. |
| Urls.PrefixHttpAsWritten | app/src/main/java/com/ncorti/kotlin/template/app/KeepAliveService.kt:119 | An address starting with "http" is unchanged; any other gets "http://" in front. |
| Urls.SchemeRulesDiffer | app/src/main/java/com/ncorti/kotlin/template/app/KeepAliveService.kt:119 | The later rule agrees with the earlier one exactly when the address has a scheme or does not start with "http". |
| Urls.SchemeCounterexample | app/src/main/java/com/ncorti/kotlin/template/app/KeepAliveService.kt:119 | "httpbin.org" passes the later rule with no scheme; the earlier rule makes it "http://httpbin.org". |
| Urls.AppendPortAsWritten | app/src/main/java/com/ncorti/kotlin/template/app/MainActivity.kt:87 | The address is unchanged when the port is empty or the text after its last ':' is all digits (including empty); otherwise ":port" goes at its very end. |
| Urls.WithPort | app/src/main/java/com/ncorti/kotlin/template/app/MainActivity.kt:87 | Adding a port keeps the scheme. |
| Urls.WithPortPlacesPort | app/src/main/java/com/ncorti/kotlin/template/app/MainActivity.kt:87 | A port of digits is appended to the authority, which then has a port; the scheme, path, query and fragment are kept. |
| Urls.LastColonIsPort | app/src/main/java/com/ncorti/kotlin/template/app/MainActivity.kt:87 | On an address with no path, query or fragment, the text after the last ':' is all digits exactly when the authority has a port. |
| Urls.PortRulesAgreeWithoutPath | app/src/main/java/com/ncorti/kotlin/template/app/MainActivity.kt:87 | On such an address, the as-written and the corrected port rules agree. |
| Urls.PortCounterexample | app/src/main/java/com/ncorti/kotlin/template/app/MainActivity.kt:87 | "http://h/p" with port "8080" becomes "http://h/p:8080" as written, and "http://h:8080/p" under the corrected rule. |
| GlobalRulesActivity.NormalizeRequest | app/src/main/java/com/ncorti/kotlin/template/app/MainActivity.kt:79-87 | No request exactly when the trimmed address is empty; a blank alias becomes "未命名", otherwise the trimmed alias; the address is the trimmed text given a scheme and then the trimmed port. |
| GlobalRulesActivity.NormalizedPortOnAuthority | app/src/main/java/com/ncorti/kotlin/template/app/MainActivity.kt:87 | With a port of digits, an address whose authority has a port is kept as typed; otherwise the scheme is kept, the authority becomes the typed one followed by ":port", and the path, query and fragment are kept. |
| GlobalRulesActivity.PageLoadedNotification | app/src/main/java/com/ncorti/kotlin/template/app/MainActivity.kt:168 | Title "运行状态"; the text is "别名: ", the alias, then "\n状态: 正常运行中". |
| GlobalRulesActivity.RequestHistoryRoundTrip | app/src/main/java/com/ncorti/kotlin/template/app/MainActivity.kt:90 | The recorded history item decodes back to the request exactly when neither alias nor address holds a '\|'. |
| GlobalRulesActivity.ErrorRuleComesFirst | app/src/main/java/com/ncorti/kotlin/template/app/MainActivity.kt:27-32 | With the fixed rules, a window holding "Error" three times posts "严重错误 (Error x3)", whatever else it holds. |
| GlobalRulesActivity.GlobalRulesQuoteSafe | app/src/main/java/com/ncorti/kotlin/template/app/MainActivity.kt:27-32 | No keyword or message of `RULES` holds a quote, backslash or line break. |
| GlobalRulesActivity.InjectedRulesAreGlobalRules | app/src/main/java/com/ncorti/kotlin/template/app/MainActivity.kt:245 | The injected script reads `RULES` back unchanged. |
| GlobalRulesActivity.MainActivity.constructor | app/src/main/java/com/ncorti/kotlin/template/app/MainActivity.kt:37-60 | No tabs, cursor -1, `lastNotifyTime` 0; the history holds exactly the items of the stored set, without duplicates; the credentials are what earlier launches saved. |
| GlobalRulesActivity.MainActivity.Go | app/src/main/java/com/ncorti/kotlin/template/app/MainActivity.kt:78-98 | An empty address changes nothing; otherwise "alias\|url" moves to the front of the history, the service starts with (alias, url), and a page opens and is selected. |
| GlobalRulesActivity.MainActivity.Open | app/src/main/java/com/ncorti/kotlin/template/app/MainActivity.kt:89-97 | The history, service start and new tab of an accepted request. |
| GlobalRulesActivity.MainActivity.OpenHistoryItem | app/src/main/java/com/ncorti/kotlin/template/app/MainActivity.kt:205-214 | The decoded page opens and is selected; the service starts only for an item holding a '\|'. |
| GlobalRulesActivity.MainActivity.RemoveHistoryItem | app/src/main/java/com/ncorti/kotlin/template/app/MainActivity.kt:215-217 | A long click removes exactly that item. |
| GlobalRulesActivity.MainActivity.AuthRequest | app/src/main/java/com/ncorti/kotlin/template/app/MainActivity.kt:139-161 | A readable saved pair for `host ?: ""` is used with no change; otherwise the dialog's pair is saved for that key and used, or the request is cancelled and nothing changes. |
| GlobalRulesActivity.MainActivity.SwitchToTab | app/src/main/java/com/ncorti/kotlin/template/app/MainActivity.kt:265-272 | Selects the page at a valid index; any other index changes nothing. |
| GlobalRulesActivity.MainActivity.CloseCurrentTab | app/src/main/java/com/ncorti/kotlin/template/app/MainActivity.kt:273-277 | With no selection nothing changes; otherwise exactly the selected page is removed and its neighbour selected. |
| GlobalRulesActivity.MainActivity.MonitorTick | app/src/main/java/com/ncorti/kotlin/template/app/MainActivity.kt:244-263 | A tick posts the first firing rule's message of `RULES`, if any. |
| GlobalRulesActivity.MainActivity.PostMessage | app/src/main/java/com/ncorti/kotlin/template/app/MainActivity.kt:233-240 | A "监控报警" notification exactly when the cooldown has passed; only then does `lastNotifyTime` move. |
| GlobalRulesActivity.MainActivity.PageFinished | app/src/main/java/com/ncorti/kotlin/template/app/MainActivity.kt:164-169 | A finished page sends a "运行状态" notification whose text holds the page's alias, without touching the cooldown. |
| PerTabActivity.StatusUpdate | app/src/main/java/com/ncorti/kotlin/template/app/KeepAliveService.kt:204-215 | The update names the tab; it removes the status line exactly when the tab is inactive, and otherwise carries "{alias}: 运行中". |
| PerTabActivity.Toggled | app/src/main/java/com/ncorti/kotlin/template/app/KeepAliveService.kt:197 | Only the notification switch changes, and it flips. |
| PerTabActivity.ToggleTwice | app/src/main/java/com/ncorti/kotlin/template/app/KeepAliveService.kt:195-215 | Toggling twice restores the configuration; the two updates are one show and one removal for the same tab. |
| PerTabActivity.NewTabConfig | app/src/main/java/com/ncorti/kotlin/template/app/KeepAliveService.kt:115-125 | No tab exactly when the trimmed address is empty; a blank alias becomes "标签 {n+1}"; the address is the trimmed text given a scheme; the rules equal the template; the tab is not in the notification. |
| PerTabActivity.DefaultAliasesDiffer | app/src/main/java/com/ncorti/kotlin/template/app/KeepAliveService.kt:116 | Blank aliases given at different tab counts differ. |
| PerTabActivity.InjectedRulesAreDefaultRules | app/src/main/java/com/ncorti/kotlin/template/app/KeepAliveService.kt:278-280 | The script injected into a new tab reads its template rules back unchanged. |
| PerTabActivity.OneNotificationPerTick | app/src/main/java/com/ncorti/kotlin/template/app/KeepAliveService.kt:291-317 | When the runnables deciding one tick's messages all run within 60000 ms of the tick, at most one of those messages becomes a notification. |
| PerTabActivity.MainActivity.constructor | app/src/main/java/com/ncorti/kotlin/template/app/KeepAliveService.kt:66-80 | No tabs, cursor -1, `lastNotifyTime` 0; the history holds exactly the items of the stored set, without duplicates; the credentials are what earlier launches saved. |
| PerTabActivity.MainActivity.Go | app/src/main/java/com/ncorti/kotlin/template/app/KeepAliveService.kt:115-128 | An empty address changes nothing; otherwise "alias\|url" moves to the front of the history and a tab with a fresh configuration opens and is selected. |
| PerTabActivity.MainActivity.OpenHistoryItem | app/src/main/java/com/ncorti/kotlin/template/app/KeepAliveService.kt:400-405 | A tab with the decoded alias and address and the template rules opens and is selected. |
| PerTabActivity.MainActivity.AuthRequest | app/src/main/java/com/ncorti/kotlin/template/app/KeepAliveService.kt:176-184 | A readable saved pair for `host ?: ""` is used with no change; otherwise the dialog's pair (KeepAliveService.kt:377-387) is saved for that key and used, or the request is cancelled and nothing changes. |
| PerTabActivity.MainActivity.SwitchToTab | app/src/main/java/com/ncorti/kotlin/template/app/KeepAliveService.kt:320-339 | Selects the tab at a valid index; any other index changes nothing. |
| PerTabActivity.MainActivity.ToggleNotificationStatus | app/src/main/java/com/ncorti/kotlin/template/app/KeepAliveService.kt:195-201 | With no tab nothing changes; otherwise only the selected tab's switch flips and its status update is sent. |
| PerTabActivity.MainActivity.AddRule | app/src/main/java/com/ncorti/kotlin/template/app/KeepAliveService.kt:255-271 | Only the selected tab's rule list changes, by `Rules.AddRule`; other tabs are untouched. |
| PerTabActivity.MainActivity.CloseCurrentTab | app/src/main/java/com/ncorti/kotlin/template/app/KeepAliveService.kt:341-359 | A tab shown in the notification first sends its removal update; then exactly the selected tab is removed and its neighbour selected. |
| PerTabActivity.MainActivity.MonitorTick | app/src/main/java/com/ncorti/kotlin/template/app/KeepAliveService.kt:283-298 | A tick of tab i posts the messages of all of that tab's firing rules, in order. |
| PerTabActivity.MainActivity.PostMessage | app/src/main/java/com/ncorti/kotlin/template/app/KeepAliveService.kt:305-317 | A "[alias] 报警" notification exactly when the shared cooldown has passed; only then does `lastNotifyTime` move. |

## Left out

- WebView creation and settings are not modelled: `loadUrl`, `reload`, `destroy`, `evaluateJavascript` and view visibility. They are UI and foreign calls; only their effect on the tab list and cursor is modelled.
- The JavaScript timers (`setInterval`, `clearInterval`) and the `window.isMonitorRunning` / `window.monitorInterval` guards are runtime scheduling. One tick is modelled as a function of the page text and the rules.
- Text.Occurrences: counts the keyword as a literal, not as a JavaScript regular expression. This agrees with every built-in keyword, which holds no regular-expression metacharacter.
- Rules.RulesLiteralRoundTrip: requires that no keyword or message hold a quote, backslash or line break. The serialiser escapes nothing, and such a text would break or alter the script.
- Text.IsDigit: only ASCII digits; Kotlin's `isDigit` also accepts other Unicode decimal digits.
- Text.ParseInt: its own contract says only that a number needs some text. Its partner `Text.IntRoundTrip` covers the texts `Int.toString` produces. Only ASCII digits are read, while `toIntOrNull` reads any Unicode decimal digit through `Character.digit`; the count field's `inputType = 2` (KeepAliveService.kt:258) keeps other digits out of the dialog.
- Cooldown.CooledDown: times are unbounded integers, so the 64-bit `Long` overflow of `currentTime - lastNotifyTime` is not modelled.
- Notifications, notification channels, the notification permission, intents and `startForegroundService` are OS I/O. A notification and the service-update payload are returned as values.
- The `KeepAliveService` class that receives the updates is not part of this model, so its aggregation of tab status lines is not either.
- SharedPreferences are I/O. The history is modelled as the set it is saved as, and the credentials as the map they are saved in.
- History.HistoryList.Reload: the iteration order of the stored `HashSet` is left open. The contract states the items, not their order.
- The dialogs are UI and are not modelled: the login prompt (its answer is a parameter), the rule list and the switch list. So are the history list's display formatting, `updateButtonState` and `onBackPressed`.
- The rule dialog's "确定" button only re-injects the tab's current rules, which `MonitorTick` already uses.
- PerTabActivity.MainActivity: the `HashMap<WebView, TabConfig>` is collapsed into the tab list, one configuration per tab, in tab order.
- `UUID.randomUUID()` is a parameter (`id`) of the methods that open a tab.
- The unit and instrumented tests use fields that neither revision has: `appName`, `isPinned`, `checkInterval` and `btnPinTab`. Pinning, display names and per-tab poll intervals are therefore not modelled.
- PerTabActivity.NewTabConfig: uses the corrected scheme rule `Urls.WithScheme`, not the as-written one (see Findings).
- GlobalRulesActivity.NormalizeRequest: uses the corrected port rule `Urls.WithPort`, not the as-written one (see Findings).

## Findings

| source | as written | input that shows it | evidently intended | confidence | as-written member | corrected member |
|---|---|---|---|---|---|---|
| app/src/main/java/com/ncorti/kotlin/template/app/KeepAliveService.kt:119 | `if (!url.startsWith("http")) url = "http://$url"` leaves any address starting with the letters "http" without a scheme | "httpbin.org" stays "httpbin.org" | add "http://" unless the address starts with "http://" or "https://", as the earlier revision does at MainActivity.kt:86 | not executed | Urls.PrefixHttpAsWritten, Urls.SchemeCounterexample | Urls.WithScheme (used by PerTabActivity.NewTabConfig; Urls.SchemeRulesDiffer states exactly where the two differ) |
| app/src/main/java/com/ncorti/kotlin/template/app/MainActivity.kt:87 | `finalUrl = "$finalUrl:$port"` appends the port at the end of the whole address, after any path, query or fragment | "http://h/p" with port "8080" gives "http://h/p:8080" | put ":port" at the end of the authority: "http://h:8080/p" | not executed | Urls.AppendPortAsWritten, Urls.PortCounterexample | Urls.WithPort, Urls.WithPortPlacesPort (used by GlobalRulesActivity.NormalizeRequest; Urls.PortRulesAgreeWithoutPath shows the two agree on addresses without a path) |
