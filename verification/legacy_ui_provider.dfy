/**
 * How a legacy application's UI provider picks the window for a request:
 * the window name is the first segment of the request path, matched by the
 * Java regular expression `^/?([^/]+).*`, and the application is asked for
 * the window of that name, falling back to its main window.
 *
 * The session-backed application is abstracted as an optional value holding
 * its named windows and its main window.
 */
module LegacyUIProvider {
  import opened Wrappers

  /** A UI instance, as far as the lookup inspects it: the id is -1 until it is initialised. */
  datatype UI = UI(uiId: int)

  /** The legacy application: its windows by name and its main window, if any. */
  datatype LegacyApplication = LegacyApplication(windows: map<string, UI>, mainWindow: Option<UI>)

  /**
   * The characters Java's `.` does not match without the DOTALL flag, so
   * that `.*` cannot run across them.
   */
  predicate IsLineTerminator(ch: char) {
    ch == '\n' || ch == '\r' || ch == '\U{85}' || ch == '\U{2028}' || ch == '\U{2029}'
  }

  predicate NoSlash(s: string) {
    forall k :: 0 <= k < |s| ==> s[k] != '/'
  }

  predicate NoLineTerminator(s: string) {
    forall k :: 0 <= k < |s| ==> !IsLineTerminator(s[k])
  }

  /**
   * `path` is an optional `/`, then `name` (at least one character, no `/`),
   * then a `rest` that is empty or starts a new segment and that `.*` can
   * match.
   */
  predicate SplitsAs(path: string, lead: string, name: string, rest: string) {
    && path == lead + name + rest
    && (lead == "" || lead == "/")
    && |name| > 0 && NoSlash(name)
    && (rest == "" || rest[0] == '/')
    && NoLineTerminator(rest)
  }

  /** The leading `/` that `/?` consumes, if the path starts with one. */
  function Lead(s: string): string {
    if |s| > 0 && s[0] == '/' then "/" else ""
  }

  /** The first position at or after `i` holding a `/`, or the end of `s`. */
  function SegmentEnd(s: string, i: nat): (e: nat)
    requires i <= |s|
    ensures i <= e <= |s|
    ensures NoSlash(s[i..e])
    ensures e < |s| ==> s[e] == '/'
    decreases |s| - i
  {
    if i == |s| || s[i] == '/' then i else SegmentEnd(s, i + 1)
  }

  /**
   * The window name of a request path: none for a `null` or empty path, or
   * when the path does not match the pattern; otherwise group 1, the run of
   * non-`/` characters after the optional leading `/`.
   */
  function WindowName(path: Option<string>): (name: Option<string>)
    ensures path.None? || path == Some("") ==> name.None?
    ensures path.Some? && |path.value| > 0 && path.value[0] == '/' && (|path.value| == 1 || path.value[1] == '/')
      ==> name.None?
    ensures name.Some? ==> (
      && path.Some?
      && |Lead(path.value)| + |name.value| <= |path.value|
      && SplitsAs(path.value, Lead(path.value), name.value, path.value[|Lead(path.value)| + |name.value|..]))
  {
    if path.None? || |path.value| == 0 then None
    else
      var s := path.value;
      var start := if s[0] == '/' then 1 else 0;
      var end := SegmentEnd(s, start);
      if end == start || !NoLineTerminator(s[end..]) then None
      else
        assert s == Lead(s) + s[start..end] + s[end..];
        Some(s[start..end])
  }

  /** Every path made of an optional `/`, a name and a matchable rest yields that name. */
  lemma WindowNameOfSplit(path: string, lead: string, name: string, rest: string)
    requires SplitsAs(path, lead, name, rest)
    ensures WindowName(Some(path)) == Some(name)
  {
    var start := |lead|;
    assert path[start] == name[0];
    assert path[start..start + |name|] == name;
    assert path[start + |name|..] == rest;
    SegmentEndAt(path, start, start + |name|);
  }

  /** `SegmentEnd` stops at the first `/`. */
  lemma {:induction false} SegmentEndAt(s: string, i: nat, e: nat)
    requires i <= e <= |s| && NoSlash(s[i..e]) && (e == |s| || s[e] == '/')
    ensures SegmentEnd(s, i) == e
    decreases e - i
  {
    if i < e {
      assert s[i] == s[i..e][0];
      assert s[i + 1..e] == s[i..e][1..];
      SegmentEndAt(s, i + 1, e);
    }
  }

  /** `LegacyApplication.getWindow`: the window registered under the name; none for a `null` name. */
  function GetWindow(app: LegacyApplication, name: Option<string>): (w: Option<UI>)
    ensures w.Some? <==> name.Some? && name.value in app.windows
  {
    if name.Some? && name.value in app.windows then Some(app.windows[name.value]) else None
  }

  /**
   * `getUIInstance`: no UI without an application; otherwise the window
   * named by the path if the application has one, else the main window.
   */
  function GetUIInstance(path: Option<string>, app: Option<LegacyApplication>): (r: Option<UI>)
    ensures app.None? ==> r.None?
    ensures app.Some? && WindowName(path).Some? && WindowName(path).value in app.value.windows ==>
      r == Some(app.value.windows[WindowName(path).value])
    ensures app.Some? && (WindowName(path).None? || WindowName(path).value !in app.value.windows) ==>
      r == app.value.mainWindow
  {
    if app.None? then None
    else
      var window := GetWindow(app.value, WindowName(path));
      if window.Some? then window else app.value.mainWindow
  }

  /** A request for a named, registered window gets that window rather than the main one. */
  lemma NamedWindowWins(path: string, lead: string, name: string, rest: string, app: LegacyApplication)
    requires SplitsAs(path, lead, name, rest) && name in app.windows
    ensures GetUIInstance(Some(path), Some(app)) == Some(app.windows[name])
  {
    WindowNameOfSplit(path, lead, name, rest);
  }

  /**
   * `getExistingUI`: the resolved UI once it has been initialised (its id is
   * not -1); none otherwise, so that a new instance is created.
   */
  function GetExistingUI(path: Option<string>, app: Option<LegacyApplication>): (r: Option<UI>)
    ensures r.Some? ==> r == GetUIInstance(path, app) && r.value.uiId != -1
    ensures r.None? ==> GetUIInstance(path, app).None? || GetUIInstance(path, app).value.uiId == -1
  {
    var ui := GetUIInstance(path, app);
    if ui.None? || ui.value.uiId == -1 then None else ui
  }

  /**
   * A registered window named by the path is the existing UI once it is
   * initialised; before that there is none, even when the main window is
   * initialised.
   */
  lemma ExistingUIOfNamedWindow(path: string, lead: string, name: string, rest: string, app: LegacyApplication)
    requires SplitsAs(path, lead, name, rest) && name in app.windows
    ensures app.windows[name].uiId != -1 ==> GetExistingUI(Some(path), Some(app)) == Some(app.windows[name])
    ensures app.windows[name].uiId == -1 ==> GetExistingUI(Some(path), Some(app)).None?
  {
    NamedWindowWins(path, lead, name, rest, app);
  }
}
