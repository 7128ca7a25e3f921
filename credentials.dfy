/**
 * The HTTP-auth credential cache: one "user:pass" string per exact host string in the
 * "AuthPrefs" preferences, read back only when it splits on ':' into exactly two pieces,
 * and the auth-request handler that answers from the cache or from the login prompt.
 */
module Credentials {
  import opened Wrappers
  import opened Text

  const CredentialSeparator: char := ':'

  /** `"$user:$pass"`. */
  function EncodeCredentials(user: string, pass: string): string {
    user + [CredentialSeparator] + pass
  }

  /** `saved.split(":")` and a pair only when there are exactly two pieces. */
  function ParseCredentials(saved: string): (r: Option<(string, string)>)
    ensures r.Some? <==> multiset(saved)[CredentialSeparator] == 1
    ensures r.Some? ==> CredentialSeparator !in r.value.0 && CredentialSeparator !in r.value.1
    ensures r.Some? ==> EncodeCredentials(r.value.0, r.value.1) == saved
  {
    var parts := Split(saved, CredentialSeparator);
    if |parts| == 2 then
      JoinSplit(saved, CredentialSeparator);
      assert Join(parts[1..], CredentialSeparator) == parts[1];
      Some((parts[0], parts[1]))
    else None
  }

  /** Saving then reading gives back (user, pass) exactly when neither holds a ':'. */
  lemma CredentialsRoundTrip(user: string, pass: string)
    ensures ParseCredentials(EncodeCredentials(user, pass)) == Some((user, pass))
            <==> CredentialSeparator !in user && CredentialSeparator !in pass
  {
    if CredentialSeparator !in user && CredentialSeparator !in pass {
      SplitAround(user, pass, CredentialSeparator);
      SplitNoDelimiter(user, CredentialSeparator);
      SplitNoDelimiter(pass, CredentialSeparator);
    }
  }

  /** `getSavedCredentials(host)` over the preference map. */
  function LookupCredentials(prefs: map<string, string>, host: string): (r: Option<(string, string)>)
    ensures host !in prefs ==> r == None
    ensures r.Some? ==> host in prefs && prefs[host] == EncodeCredentials(r.value.0, r.value.1)
  {
    if host in prefs then ParseCredentials(prefs[host]) else None
  }

  /**
   * After saving (user, pass) for a host, that host reads back the pair exactly when
   * neither part holds a ':', and every other host reads back what it did before.
   */
  lemma SaveThenLookup(prefs: map<string, string>, host: string, user: string, pass: string, other: string)
    ensures LookupCredentials(prefs[host := EncodeCredentials(user, pass)], host) == Some((user, pass))
            <==> CredentialSeparator !in user && CredentialSeparator !in pass
    ensures other != host ==>
              LookupCredentials(prefs[host := EncodeCredentials(user, pass)], other) == LookupCredentials(prefs, other)
  {
    CredentialsRoundTrip(user, pass);
  }

  /** What the auth handler tells the WebView. */
  datatype AuthAnswer = Proceed(user: string, pass: string) | Cancel

  /** The "AuthPrefs" preferences file. */
  class CredentialStore {
    var prefs: map<string, string>

    /** Opens the preferences file with what earlier launches stored in it. */
    constructor (stored: map<string, string>)
      ensures prefs == stored
    {
      prefs := stored;
    }

    /**
     * `saveCredentials(host, user, pass)`: the host reads its pair back exactly when
     * neither part holds a ':', and every other host reads what it read before.
     */
    method SaveCredentials(host: string, user: string, pass: string)
      modifies this
      ensures prefs == old(prefs)[host := EncodeCredentials(user, pass)]
      ensures SavedCredentials(host) == Some((user, pass))
              <==> CredentialSeparator !in user && CredentialSeparator !in pass
      ensures forall h :: h != host ==> SavedCredentials(h) == old(SavedCredentials(h))
    {
      prefs := prefs[host := EncodeCredentials(user, pass)];
      CredentialsRoundTrip(user, pass);
    }

    /** `getSavedCredentials(host)`. */
    function SavedCredentials(host: string): (r: Option<(string, string)>)
      reads this
      ensures r == LookupCredentials(prefs, host)
    {
      LookupCredentials(prefs, host)
    }

    /**
     * `onReceivedHttpAuthRequest`: the key is `host ?: ""`; a readable saved pair is
     * used at once; otherwise the login prompt's answer (None for "cancel") is saved
     * and used.
     */
    method AnswerAuthRequest(host: Option<string>, prompt: Option<(string, string)>) returns (answer: AuthAnswer)
      modifies this
      ensures LookupCredentials(old(prefs), host.GetOr("")).Some? ==>
                answer == Proceed(LookupCredentials(old(prefs), host.GetOr("")).value.0,
                                  LookupCredentials(old(prefs), host.GetOr("")).value.1)
                && prefs == old(prefs)
      ensures LookupCredentials(old(prefs), host.GetOr("")).None? && prompt.None? ==>
                answer == Cancel && prefs == old(prefs)
      ensures LookupCredentials(old(prefs), host.GetOr("")).None? && prompt.Some? ==>
                answer == Proceed(prompt.value.0, prompt.value.1)
                && prefs == old(prefs)[host.GetOr("") := EncodeCredentials(prompt.value.0, prompt.value.1)]
    {
      var key := host.GetOr("");
      var saved := SavedCredentials(key);
      if saved.Some? {
        answer := Proceed(saved.value.0, saved.value.1);
      } else if prompt.Some? {
        SaveCredentials(key, prompt.value.0, prompt.value.1);
        answer := Proceed(prompt.value.0, prompt.value.1);
      } else {
        answer := Cancel;
      }
    }
  }
}
