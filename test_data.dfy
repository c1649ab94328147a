/** The string helpers of the end-to-end tests, `firebase-helpers.ts`: generated test
    identities, the URL test for being signed in, the read-back check after filling a form
    field, and the probes for an error message on the page. The clock, the random numbers
    and the page are inputs. */
module TestData {
  import opened Wrappers
  import opened Strings

  // ---------------------------------------------------------------------------------------
  // Generated identities

  /** The domain part of every test email, with its `@`. */
  const Domain := "@test.com"

  /** `chekmate-test-${timestamp}-${random}@test.com`, where `random` is
      `Math.floor(Math.random() * 10000)`. */
  function TestEmail(timestamp: nat, random: nat): (e: string)
    requires random < 10000
    ensures |e| > |Domain| && e[|e| - |Domain|..] == Domain && '@' !in e[..|e| - |Domain|]
  {
    var local := EmailLocalPart(timestamp, random);
    LocalPartNoAt(timestamp, random);
    assert (local + Domain)[..|local|] == local;
    local + Domain
  }

  function EmailLocalPart(timestamp: nat, random: nat): string {
    "chekmate-test-" + NatToString(timestamp) + "-" + NatToString(random)
  }

  /** `testuser_${timestamp}_${random}`. */
  function TestUsername(timestamp: nat, random: nat): (u: string)
    requires random < 10000
    ensures '@' !in u
  {
    DigitsHaveNoSign(NatToString(timestamp), '@');
    DigitsHaveNoSign(NatToString(random), '@');
    "testuser_" + NatToString(timestamp) + "_" + NatToString(random)
  }

  /** The user record `generateTestUserData` returns. */
  datatype UserData = UserData(email: string, username: string, displayName: string,
                               password: string, phone: string)

  const TestPassword := "TestPassword123!"
  const TestPhone := "+1234567890"

  /** `email.split('@')[0]`: the text before the first `@`, all of it when there is none. */
  function BeforeAt(s: string): (r: string)
    ensures '@' !in r && |r| <= |s| && r == s[..|r|]
    ensures |r| < |s| ==> s[|r|] == '@'
  {
    s[..IndexOf(s, '@')]
  }

  /** `generateTestUserData`: `timestamp` and `random` make the email, and `now` is the
      later clock reading used for the display name. */
  function TestUserData(timestamp: nat, random: nat, now: nat): (d: UserData)
    requires random < 10000
  {
    var email := TestEmail(timestamp, random);
    UserData(email, BeforeAt(email), "Test User " + NatToString(now), TestPassword, TestPhone)
  }

  lemma DigitsHaveNoSign(digits: string, c: char)
    requires forall k :: 0 <= k < |digits| ==> IsDigit(digits[k])
    requires !IsDigit(c)
    ensures c !in digits
  {
  }

  /** The email's local part holds no `@`. */
  lemma LocalPartNoAt(timestamp: nat, random: nat)
    ensures '@' !in EmailLocalPart(timestamp, random)
  {
    DigitsHaveNoSign(NatToString(timestamp), '@');
    DigitsHaveNoSign(NatToString(random), '@');
    assert '@' !in "chekmate-test-" && '@' !in "-";
  }

  /** The username is the email's local part, `chekmate-test-${timestamp}-${random}`, and
      the email is that username followed by `@test.com`; the password and the phone are
      fixed. */
  lemma UserDataFields(timestamp: nat, random: nat, now: nat)
    requires random < 10000
    ensures var d := TestUserData(timestamp, random, now);
      d.username == EmailLocalPart(timestamp, random) && d.email == d.username + Domain
      && '@' !in d.username && d.password == TestPassword && d.phone == TestPhone
  {
    var local := EmailLocalPart(timestamp, random);
    var email := TestEmail(timestamp, random);
    LocalPartNoAt(timestamp, random);
    assert email[|local|] == '@';
    forall k | 0 <= k < |local| ensures email[k] != '@' {
      assert email[k] == local[k];
    }
    IndexOfFirst(email, '@', |local|);
    assert email[..|local|] == local;
  }

  /** Two digit strings joined by a separator that is not a digit come apart again. */
  lemma {:induction false} JoinedDigitsSplit(a: string, b: string, c: string, d: string, sep: char)
    requires forall k :: 0 <= k < |a| ==> IsDigit(a[k])
    requires forall k :: 0 <= k < |c| ==> IsDigit(c[k])
    requires !IsDigit(sep)
    requires a + [sep] + b == c + [sep] + d
    ensures a == c && b == d
  {
    var s := a + [sep] + b;
    forall k | 0 <= k < |a| ensures s[k] != sep {
      assert s[k] == a[k];
    }
    forall k | 0 <= k < |c| ensures s[k] != sep {
      assert s[k] == (c + [sep] + d)[k] == c[k];
    }
    IndexOfFirst(s, sep, |a|);
    IndexOfFirst(s, sep, |c|);
    assert a == s[..|a|] && c == s[..|c|];
    assert b == s[|a| + 1..] && d == s[|c| + 1..];
  }

  /** Different clock readings or random numbers give different emails. */
  lemma {:induction false} TestEmailInjective(t1: nat, r1: nat, t2: nat, r2: nat)
    requires r1 < 10000 && r2 < 10000
    requires TestEmail(t1, r1) == TestEmail(t2, r2)
    ensures t1 == t2 && r1 == r2
  {
    var p := "chekmate-test-";
    var d1, e1 := NatToString(t1), NatToString(r1);
    var d2, e2 := NatToString(t2), NatToString(r2);
    var x1, x2 := d1 + "-" + e1, d2 + "-" + e2;
    assert TestEmail(t1, r1) == p + x1 + Domain;
    assert TestEmail(t2, r2) == p + x2 + Domain;
    assert x1 == x2 by {
      assert |x1| == |x2|;
      assert x1 == TestEmail(t1, r1)[|p|..|p| + |x1|];
      assert x2 == TestEmail(t2, r2)[|p|..|p| + |x2|];
    }
    JoinedDigitsSplit(d1, e1, d2, e2, '-');
    NatToStringInjective(t1, t2);
    NatToStringInjective(r1, r2);
  }

  /** Different clock readings or random numbers give different usernames. */
  lemma {:induction false} TestUsernameInjective(t1: nat, r1: nat, t2: nat, r2: nat)
    requires r1 < 10000 && r2 < 10000
    requires TestUsername(t1, r1) == TestUsername(t2, r2)
    ensures t1 == t2 && r1 == r2
  {
    var p := "testuser_";
    var d1, e1 := NatToString(t1), NatToString(r1);
    var d2, e2 := NatToString(t2), NatToString(r2);
    var x1, x2 := d1 + "_" + e1, d2 + "_" + e2;
    assert TestUsername(t1, r1) == p + x1;
    assert TestUsername(t2, r2) == p + x2;
    assert x1 == x2 by {
      assert x1 == TestUsername(t1, r1)[|p|..];
      assert x2 == TestUsername(t2, r2)[|p|..];
    }
    JoinedDigitsSplit(d1, e1, d2, e2, '_');
    NatToStringInjective(t1, t2);
    NatToStringInjective(r1, r2);
  }

  // ---------------------------------------------------------------------------------------
  // Page checks

  /** `isUserAuthenticated`: the page URL contains neither `/login` nor `/signup`. */
  predicate IsUserAuthenticated(url: string) {
    !Contains(url, "/login") && !Contains(url, "/signup")
  }

  /** Signed in exactly when neither path occurs anywhere in the URL. */
  lemma AuthenticatedIffNoAuthPath(url: string)
    ensures IsUserAuthenticated(url) <==>
      (forall i :: !OccursAt(url, "/login", i)) && (forall i :: !OccursAt(url, "/signup", i))
  {
    ContainsAt(url, "/login");
    ContainsAt(url, "/signup");
  }

  /** `fillFormField` after the value has been typed: `None` when the field reads back as
      written, otherwise the message of the error it throws. */
  function FillFormField(selector: string, value: string, readBack: string): (error: Option<string>)
    ensures error.None? <==> readBack == value
  {
    if readBack != value then
      Some("Failed to fill field " + selector + ". Expected: " + value + ", Got: " + readBack)
    else None
  }

  /** The error message names the selector and ends with the value read back. */
  lemma FillFormFieldMessage(selector: string, value: string, readBack: string)
    requires readBack != value
    ensures var m := FillFormField(selector, value, readBack).value;
      OccursAt(m, selector, 21) && OccursAt(m, readBack, |m| - |readBack|)
  {
    var m := FillFormField(selector, value, readBack).value;
    assert |"Failed to fill field "| == 21;
    assert m[21..21 + |selector|] == selector;
    assert m[|m| - |readBack|..] == readBack;
  }

  /** What probing one selector on the page gives: the first match is visible (with its
      text), is not, or the probe throws. */
  datatype Probe = Visible(text: string) | Hidden | Throws

  /** The selectors `hasErrorMessage` tries, in order. */
  const HasErrorSelectors: seq<string> := ["text=/error/i", "text=/failed/i", "[role=\"alert\"]", ".error", ".snackbar"]

  /** The selectors `getErrorMessage` tries, in order: the same ones, the text patterns last. */
  const GetErrorSelectors: seq<string> := ["[role=\"alert\"]", ".error", ".snackbar", "text=/error/i", "text=/failed/i"]

  /** The probe result for a selector; a selector the page map leaves out is not visible. */
  function ProbeOf(page: map<string, Probe>, selector: string): Probe {
    if selector in page then page[selector] else Hidden
  }

  /** The first selector whose probe is not `Hidden`, with its result. */
  function FirstProbe(page: map<string, Probe>, selectors: seq<string>): (p: Option<Probe>)
    ensures p.None? <==> forall i :: 0 <= i < |selectors| ==> ProbeOf(page, selectors[i]).Hidden?
    ensures p.Some? ==> !p.value.Hidden?
    ensures p.Some? ==>
      exists i :: 0 <= i < |selectors| && ProbeOf(page, selectors[i]) == p.value
        && forall j :: 0 <= j < i ==> ProbeOf(page, selectors[j]).Hidden?
  {
    if selectors == [] then None
    else if !ProbeOf(page, selectors[0]).Hidden? then
      Some(ProbeOf(page, selectors[0]))
    else
      var p := FirstProbe(page, selectors[1..]);
      if p.Some? then
        var i :| 0 <= i < |selectors[1..]| && ProbeOf(page, selectors[1..][i]) == p.value
          && forall j :: 0 <= j < i ==> ProbeOf(page, selectors[1..][j]).Hidden?;
        assert ProbeOf(page, selectors[i + 1]) == p.value;
        assert forall j :: 0 <= j < i + 1 ==> ProbeOf(page, selectors[j]).Hidden? by {
          forall j | 0 <= j < i + 1 ensures ProbeOf(page, selectors[j]).Hidden? {
            if j > 0 {
              assert selectors[j] == selectors[1..][j - 1];
            }
          }
        }
        p
      else p
  }

  /** `hasErrorMessage`: true at the first visible selector; a probe that throws ends the
      search with false. */
  method HasErrorMessage(page: map<string, Probe>) returns (found: bool)
    ensures found <==> FirstProbe(page, HasErrorSelectors).Some? && FirstProbe(page, HasErrorSelectors).value.Visible?
  {
    var selectors := HasErrorSelectors;
    for i := 0 to |selectors|
      invariant FirstProbe(page, selectors) == FirstProbe(page, selectors[i..])
    {
      assert selectors[i..][1..] == selectors[i + 1..];
      var probe := ProbeOf(page, selectors[i]);
      if probe.Visible? {
        return true;
      }
      if probe.Throws? {
        return false;
      }
    }
    assert selectors[|selectors|..] == [];
    return false;
  }

  /** `getErrorMessage`: the text of the first visible selector's element; `null` when none
      is visible or a probe throws. */
  method GetErrorMessage(page: map<string, Probe>) returns (message: Option<string>)
    ensures message.Some? <==> FirstProbe(page, GetErrorSelectors).Some? && FirstProbe(page, GetErrorSelectors).value.Visible?
    ensures message.Some? ==> message.value == FirstProbe(page, GetErrorSelectors).value.text
  {
    var selectors := GetErrorSelectors;
    for i := 0 to |selectors|
      invariant FirstProbe(page, selectors) == FirstProbe(page, selectors[i..])
    {
      assert selectors[i..][1..] == selectors[i + 1..];
      var probe := ProbeOf(page, selectors[i]);
      if probe.Visible? {
        return Some(probe.text);
      }
      if probe.Throws? {
        return None;
      }
    }
    assert selectors[|selectors|..] == [];
    return None;
  }

  /** On a page where no probe throws, the scan reports a visible error exactly when one of
      its selectors is visible. */
  lemma NoThrowFound(page: map<string, Probe>, selectors: seq<string>)
    requires forall s :: s in page ==> !page[s].Throws?
    ensures FirstProbe(page, selectors).Some? && FirstProbe(page, selectors).value.Visible? <==>
      exists i :: 0 <= i < |selectors| && ProbeOf(page, selectors[i]).Visible?
  {
  }

  /** The two helpers use the same selectors in a different order, so on a page where no
      probe throws they agree on whether an error is shown, though not always on which. */
  lemma ErrorHelpersAgree(page: map<string, Probe>)
    requires forall s :: s in page ==> !page[s].Throws?
    ensures (FirstProbe(page, HasErrorSelectors).Some? && FirstProbe(page, HasErrorSelectors).value.Visible?)
        <==> (FirstProbe(page, GetErrorSelectors).Some? && FirstProbe(page, GetErrorSelectors).value.Visible?)
  {
    SelectorsSame();
    SameSelectorsAgree(page, HasErrorSelectors, GetErrorSelectors);
  }

  lemma SelectorsSame()
    ensures forall s :: s in HasErrorSelectors ==> s in GetErrorSelectors
    ensures forall s :: s in GetErrorSelectors ==> s in HasErrorSelectors
  {
    var h, g := HasErrorSelectors, GetErrorSelectors;
    assert h[0] == g[3] && h[1] == g[4] && h[2] == g[0] && h[3] == g[1] && h[4] == g[2];
  }

  /** Two lists of the same selectors find a visible error on the same pages where no probe
      throws. */
  lemma SameSelectorsAgree(page: map<string, Probe>, h: seq<string>, g: seq<string>)
    requires forall s :: s in page ==> !page[s].Throws?
    requires forall s :: s in h ==> s in g
    requires forall s :: s in g ==> s in h
    ensures (FirstProbe(page, h).Some? && FirstProbe(page, h).value.Visible?)
        <==> (FirstProbe(page, g).Some? && FirstProbe(page, g).value.Visible?)
  {
    NoThrowFound(page, h);
    NoThrowFound(page, g);
    if exists i :: 0 <= i < |h| && ProbeOf(page, h[i]).Visible? {
      var i :| 0 <= i < |h| && ProbeOf(page, h[i]).Visible?;
      assert h[i] in g;
    }
    if exists j :: 0 <= j < |g| && ProbeOf(page, g[j]).Visible? {
      var j :| 0 <= j < |g| && ProbeOf(page, g[j]).Visible?;
      assert g[j] in h;
    }
  }
}
