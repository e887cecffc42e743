/** The sidebar's remembered open state, `src/components/sidebar/sidebar-wrapper.tsx`: the
    state is written to a cookie on every change and read back once the page hydrates. The
    cookie string is the `name=value; name=value` serialization of section 5.4 of RFC 6265;
    `None` stands for a page without a `document` (server rendering). */
module Sidebar {
  import opened Wrappers
  import opened Text

  const SidebarCookieName := "sidebar_state"

  /** What the cookie string is cut at: `"; " + name + "="`. */
  function CookieSeparator(name: string): (sep: string)
    ensures |sep| > 0
  {
    "; " + name + "="
  }

  /** The value of cookie `name`: the text after the one `"; name="` in `"; " + cookie`, up
      to the next `;`. Several matches, none, or an empty value give `None`. */
  function GetCookieValue(document: Option<string>, name: string): (r: Option<string>)
    ensures r.Some? ==> r.value != "" && ';' !in r.value
  {
    if document.None? then None
    else
      var value := "; " + document.value;
      var parts := SplitOn(value, CookieSeparator(name));
      if |parts| == 2 then
        var v := Split(parts[1], ';')[0];
        SplitPiecesAvoid(parts[1], ';');
        if v != "" then Some(v) else None
      else None
  }

  /** The cases of `GetCookieValue`. Without a document, or when the separator occurs in
      `"; " + cookie` not at all or more than once, there is no value. When it occurs
      once, at `i`, the value is the longest `;`-free prefix of what follows it, or `None`
      when that prefix is empty. */
  lemma GetCookieValueCases(document: Option<string>, name: string)
    ensures document.None? ==> GetCookieValue(document, name).None?
    ensures document.Some? ==>
      var value, sep := "; " + document.value, CookieSeparator(name);
      match IndexOf(value, sep)
      case None => GetCookieValue(document, name).None?
      case Some(i) =>
        var rest := value[i + |sep|..];
        var r := GetCookieValue(document, name);
        && (Includes(rest, sep) ==> r.None?)
        && (!Includes(rest, sep) ==>
              && (r.None? <==> rest == "" || rest[0] == ';')
              && (r.Some? ==> StartsWith(rest, r.value) && (|r.value| == |rest| || rest[|r.value|] == ';')))
  {
    if document.Some? {
      var value, sep := "; " + document.value, CookieSeparator(name);
      match IndexOf(value, sep)
      case None =>
      case Some(i) =>
        var rest := value[i + |sep|..];
        if Includes(rest, sep) {
          assert |SplitOn(value, sep)| > 2 by {
            assert SplitOn(value, sep) == [value[..i]] + SplitOn(rest, sep);
          }
        } else {
          CookieValueOnce(document.value, name, i);
        }
    }
  }

  /** The separator found once, at `i`: the value runs from after it to the next `;`. */
  lemma CookieValueOnce(cookie: string, name: string, i: nat)
    requires IndexOf("; " + cookie, CookieSeparator(name)) == Some(i)
    requires !Includes(("; " + cookie)[i + |CookieSeparator(name)|..], CookieSeparator(name))
    ensures var rest := ("; " + cookie)[i + |CookieSeparator(name)|..];
      var r := GetCookieValue(Some(cookie), name);
      && (r.None? <==> rest == "" || rest[0] == ';')
      && (r.Some? ==> StartsWith(rest, r.value) && (|r.value| == |rest| || rest[|r.value|] == ';'))
  {
    var value, sep := "; " + cookie, CookieSeparator(name);
    var rest := value[i + |sep|..];
    assert SplitOn(value, sep) == [value[..i]] + [rest];
    SplitFirstPiece(rest, ';');
  }

  /** A cookie string that starts with `name=` has its separator at position 0, so the
      first cookie is found despite having no `"; "` before it. */
  lemma FirstCookieFound(cookie: string, name: string)
    requires StartsWith(cookie, name + "=")
    ensures IndexOf("; " + cookie, CookieSeparator(name)) == Some(0)
  {
    var value, sep := "; " + cookie, CookieSeparator(name);
    assert value[..|sep|] == "; " + cookie[..|name| + 1];
    assert OccursAt(value, sep, 0);
  }

  /** A cookie string holding a single cookie that does not start with `name=` never
      yields a value for `name`: a longer name ending in `name`, such as
      `my_sidebar_state`, is not matched. */
  lemma OtherNameNotMatched(cookie: string, name: string)
    requires !Includes(cookie, "; ") && !StartsWith(cookie, name + "=")
    ensures GetCookieValue(Some(cookie), name) == None
  {
    SeparatorPositions(cookie, name);
    assert IndexOf("; " + cookie, CookieSeparator(name)).None?;
  }

  /** Where `"; name="` can occur in `"; " + cookie`: at 0 only if the cookie string starts
      with `name=`, never at 1, and further on only over a `"; "` of the cookie string. */
  lemma SeparatorPositions(cookie: string, name: string)
    ensures OccursAt("; " + cookie, CookieSeparator(name), 0) ==> StartsWith(cookie, name + "=")
    ensures !OccursAt("; " + cookie, CookieSeparator(name), 1)
    ensures forall k :: 2 <= k && OccursAt("; " + cookie, CookieSeparator(name), k) ==> OccursAt(cookie, "; ", k - 2)
  {
    var value, sep := "; " + cookie, CookieSeparator(name);
    if OccursAt(value, sep, 0) {
      assert value[..|sep|] == sep;
      assert sep[2..] == name + "=";
      assert value[2..|sep|] == sep[2..];
      assert cookie[..|name| + 1] == value[2..|sep|];
    }
    assert value[1] == ' ' != sep[0];
    if 1 + |sep| <= |value| {
      assert value[1..1 + |sep|][0] != sep[0];
    }
    forall k | 2 <= k && OccursAt(value, sep, k) ensures OccursAt(cookie, "; ", k - 2) {
      assert value[k] == sep[0] && value[k + 1] == sep[1];
      assert cookie[k - 2..k] == "; ";
    }
  }

  function BoolToString(b: bool): string {
    if b then "true" else "false"
  }

  const CookieMaxAge: nat := 60 * 60 * 24 * 7

  /** The string assigned to `document.cookie` when the sidebar opens or closes. */
  function OpenStateCookie(open: bool): string {
    SidebarCookieName + "=" + BoolToString(open) + "; path=/; max-age=" + NatToString(CookieMaxAge)
  }

  lemma MaxAgeString()
    ensures NatToString(CookieMaxAge) == "604800"
  {
    assert NatToString(6) == "6";
    assert NatToString(60) == "60";
    assert NatToString(604) == "604";
    assert NatToString(6048) == "6048";
    assert NatToString(60480) == "60480";
  }

  /** The write is `sidebar_state=<b>; path=/; max-age=604800`, and its name-value pair,
      the part before the first `;` that a browser stores (section 5.2 of RFC 6265), is
      `sidebar_state=<b>`. */
  lemma OpenStateCookieWritten(open: bool)
    ensures OpenStateCookie(open) == SidebarCookieName + "=" + BoolToString(open) + "; path=/; max-age=604800"
    ensures Split(OpenStateCookie(open), ';')[0] == SidebarCookieName + "=" + BoolToString(open)
  {
    MaxAgeString();
    var w := OpenStateCookie(open);
    var pair := SidebarCookieName + "=" + BoolToString(open);
    assert w == pair + "; path=/; max-age=604800";
    assert w[..|pair|] == pair && w[|pair|] == ';';
    SplitFirstPieceIs(w, ';', pair);
  }

  /** A cookie string that starts with `sidebar_state=<b>`, with no other `sidebar_state`
      cookie after it, reads back `<b>`. */
  lemma OpenStateCookieReadsBack(open: bool, tail: string)
    requires tail == "" || tail[0] == ';'
    requires !Includes(BoolToString(open) + tail, CookieSeparator(SidebarCookieName))
    ensures GetCookieValue(Some(SidebarCookieName + "=" + BoolToString(open) + tail), SidebarCookieName) == Some(BoolToString(open))
  {
    var name, b := SidebarCookieName, BoolToString(open);
    var cookie := name + "=" + b + tail;
    var value, sep := "; " + cookie, CookieSeparator(name);
    assert cookie[..|name| + 1] == name + "=";
    FirstCookieFound(cookie, name);
    var rest := b + tail;
    assert value[|sep|..] == rest;
    assert rest[..|b|] == b;
    SplitFirstPieceIs(rest, ';', b);
    assert SplitOn(value, sep) == [value[..0]] + SplitOn(rest, sep);
  }

  /** The wrapper's React state. */
  class SidebarWrapper {
    var open: bool
    var isHydrated: bool

    /** Initially open, and not yet hydrated. */
    constructor()
      ensures open && !isHydrated
    {
      open := true;
      isHydrated := false;
    }

    /** The mount effect: a saved state opens the sidebar iff it is `"true"`; without one
        the state stays as it is. Either way the page is hydrated afterwards. */
    method Hydrate(document: Option<string>)
      modifies this
      ensures isHydrated
      ensures var saved := GetCookieValue(document, SidebarCookieName);
        open == (if saved.Some? then saved.value == "true" else old(open))
    {
      var savedState := GetCookieValue(document, SidebarCookieName);
      if savedState.Some? {
        open := savedState.value == "true";
      }
      isHydrated := true;
    }

    /** `onOpenChange`: records the new state and returns what is written to
        `document.cookie`. */
    method HandleOpenChange(newOpen: bool) returns (cookieWrite: string)
      modifies this
      ensures open == newOpen && isHydrated == old(isHydrated)
      ensures cookieWrite == OpenStateCookie(newOpen)
    {
      open := newOpen;
      cookieWrite := OpenStateCookie(newOpen);
    }

    /** What the provider is told: always open before hydration, the state after. */
    function ReportedOpen(): (r: bool)
      reads this
      ensures !isHydrated ==> r
      ensures isHydrated ==> r == open
    {
      if isHydrated then open else true
    }
  }

  /** Reading back a cookie string that starts with the pair `HandleOpenChange` wrote
      restores that state on the next page load, whatever the state before. */
  method ReloadAfterChange(newOpen: bool, tail: string) returns (reported: bool)
    requires tail == "" || tail[0] == ';'
    requires !Includes(BoolToString(newOpen) + tail, CookieSeparator(SidebarCookieName))
    ensures reported == newOpen
  {
    var before := new SidebarWrapper();
    var write := before.HandleOpenChange(newOpen);
    OpenStateCookieWritten(newOpen);
    OpenStateCookieReadsBack(newOpen, tail);
    var stored := Split(write, ';')[0];
    var page := new SidebarWrapper();
    page.Hydrate(Some(stored + tail));
    reported := page.ReportedOpen();
  }
}
