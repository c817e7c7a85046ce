/** How an account's email is derived from a wheel label (addWheelEntries)
    and how an admin-supplied email is normalised (updateUserEmail). */
module Identity {
  import opened Text

  const EmailDomain: string := "@ibtikar-tech.com"

  /** `${label.replace(/\s+/g, ".").toLowerCase()}@ibtikar-tech.com`: the
      local part is built in one pass by `LocalPart`, which
      `LocalPartIsLowerDots` shows to be the replace followed by the
      lower-casing. */
  function EmailFor(tag: string): (email: string)
    ensures |email| >= |EmailDomain|
  {
    LocalPart(tag, 0) + EmailDomain
  }

  /** `s[i..]` with every whitespace run turned into one dot and every
      character lower-cased. */
  function LocalPart(s: string, i: nat): string
    requires i <= |s|
    decreases |s| - i
  {
    if i == |s| then []
    else if IsSpace(s[i]) then "." + LocalPart(s, SkipSpaces(s, i + 1))
    else [LowerChar(s[i])] + LocalPart(s, i + 1)
  }

  lemma {:induction false} LocalPartIsLowerDots(s: string, i: nat)
    requires i <= |s|
    ensures LocalPart(s, i) == Lower(DotsFrom(s, i))
    decreases |s| - i
  {
    if i < |s| {
      if IsSpace(s[i]) {
        var j := SkipSpaces(s, i + 1);
        LocalPartIsLowerDots(s, j);
        LowerAppend(".", DotsFrom(s, j));
        assert Lower(".") == ".";
      } else {
        LocalPartIsLowerDots(s, i + 1);
        LowerAppend([s[i]], DotsFrom(s, i + 1));
        assert Lower([s[i]]) == [LowerChar(s[i])];
      }
    }
  }

  /** A derived email ends in the company domain and holds neither
      whitespace nor capitals. */
  lemma EmailForShape(tag: string)
    ensures var email := EmailFor(tag);
      && |email| >= |EmailDomain| && email[|email| - |EmailDomain|..] == EmailDomain
      && NoSpace(email) && IsLower(email)
  {
    DomainIsPlain();
    LocalPartIsLowerDots(tag, 0);
    var local := Lower(DotSpaceRuns(tag));
    assert EmailFor(tag) == local + EmailDomain;
  }

  /** The domain holds no whitespace and no capital. */
  lemma DomainIsPlain()
    ensures NoSpace(EmailDomain) && IsLower(EmailDomain)
  {
  }

  /** `newEmail.trim().toLowerCase()` */
  function NormalizeEmail(email: string): (r: string)
    ensures IsLower(r) && IsTrimmed(r)
    ensures NoSpace(email) && IsLower(email) ==> r == email
    ensures IsTrimmed(email) && IsLower(email) ==> r == email
  {
    var t := Trim(email);
    assert NoSpace(email) ==> IsTrimmed(email);
    var r := Lower(t);
    assert IsTrimmed(r) by {
      assert r != [] ==> r[0] == LowerChar(t[0]) && r[|r| - 1] == LowerChar(t[|t| - 1]);
    }
    r
  }

  /** An email derived from a label already passes updateUserEmail's checks
      unchanged: normalising it is the identity and it contains '@'. */
  lemma DerivedEmailIsNormal(tag: string)
    ensures NormalizeEmail(EmailFor(tag)) == EmailFor(tag)
    ensures '@' in EmailFor(tag)
  {
    EmailForShape(tag);
    var e := EmailFor(tag);
    assert e[|e| - |EmailDomain|] == '@';
  }

  /** Labels that differ only in letter case derive the same email, so
      addWheelEntries may insert two entries and provision one account. */
  lemma EmailIgnoresCase(tag: string)
    ensures EmailFor(Lower(tag)) == EmailFor(tag)
  {
    LocalPartIgnoresCase(tag, 0);
  }

  /** Lower-casing moves no whitespace, so the scans see the same runs. */
  lemma {:induction false} SkipCommutesWithLower(s: string, i: nat)
    requires i <= |s|
    ensures SkipSpaces(Lower(s), i) == SkipSpaces(s, i)
    decreases |s| - i
  {
    if i < |s| && IsSpace(s[i]) {
      SkipCommutesWithLower(s, i + 1);
    }
  }

  lemma {:induction false} LocalPartIgnoresCase(s: string, i: nat)
    requires i <= |s|
    ensures LocalPart(Lower(s), i) == LocalPart(s, i)
    decreases |s| - i
  {
    if i < |s| {
      if IsSpace(s[i]) {
        SkipCommutesWithLower(s, i + 1);
        LocalPartIgnoresCase(s, SkipSpaces(s, i + 1));
      } else {
        LocalPartIgnoresCase(s, i + 1);
      }
    }
  }
}
