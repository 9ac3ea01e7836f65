/**
 * The page component's state: the displayed URL, the two radio selections and
 * the payload text, and the four handlers that overwrite them.
 */
module HomePage {
  import opened JsString
  import opened PrintUrl

  class Home {
    var url: string
    var env: string
    var mode: string
    var queryParams: string

    /**
     * Whenever a payload is present, the displayed URL is the one built from
     * the current selections and that payload.
     */
    ghost predicate InSync()
      reads this
    {
      |queryParams| > 0 ==> url == BuildUrl(env, mode, queryParams)
    }

    /** The initial state: remote, standalone, no payload, the initial URL. */
    constructor ()
      ensures url == InitialUrl && env == "remote" && mode == "standalone" && queryParams == ""
      ensures InSync()
    {
      url := InitialUrl;
      env := "remote";
      mode := "standalone";
      queryParams := "";
    }

    /** The environment radio: the old origin's first occurrence in the URL becomes the new origin. */
    method ChangeEnv(value: string)
      modifies this
      ensures url == ReplaceFirst(old(url), Origin(old(env)), Origin(value))
      ensures env == value && mode == old(mode) && queryParams == old(queryParams)
      ensures old(InSync()) ==> InSync()
    {
      var prevValue := env;
      var newUrl := ReplaceFirst(url, Origin(prevValue), Origin(value));
      if InSync() {
        SwitchEnvKeepsSync(url, prevValue, value, mode, queryParams);
      }
      url := newUrl;
      env := value;
    }

    /** The mode radio: the old segment's first occurrence in the URL becomes the new segment. */
    method ChangeMode(value: string)
      modifies this
      ensures url == ReplaceFirst(old(url), ModeSegment(old(mode)), ModeSegment(value))
      ensures mode == value && env == old(env) && queryParams == old(queryParams)
      ensures old(InSync()) ==> InSync()
    {
      var prevValue := mode;
      var newUrl := ReplaceFirst(url, ModeSegment(prevValue), ModeSegment(value));
      if InSync() {
        SwitchModeKeepsSync(url, env, prevValue, value, queryParams);
      }
      url := newUrl;
      mode := value;
    }

    /**
     * The payload text area: an empty payload brings back the initial URL,
     * any other payload rebuilds the URL from the current selections.
     */
    method ChangePayload(value: string)
      modifies this
      ensures queryParams == value && env == old(env) && mode == old(mode)
      ensures url == PayloadUrl(env, mode, value)
      ensures InSync()
    {
      queryParams := value;
      if |value| == 0 {
        url := InitialUrl;
        return;
      }
      url := BuildUrl(env, mode, value);
    }

    /** The clear button: back to the initial state. */
    method Clear()
      modifies this
      ensures url == InitialUrl && env == "remote" && mode == "standalone" && queryParams == ""
      ensures InSync()
    {
      env := "remote";
      mode := "standalone";
      queryParams := "";
      url := InitialUrl;
    }
  }
}
