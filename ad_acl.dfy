/**
 * The `ad_acl` resource type: the desired access-control state of an object
 * on an Active Directory server, and how a live state is judged to be in
 * sync with it.
 *
 * Scalar properties (`name`, `owner`, `group`) are compared ignoring ASCII
 * case (module CaseFold). The two rule arrays (`audit_rules`,
 * `access_rules`) check each desired rule's `identity` against a SID pattern
 * (module SidPatterns) and are compared without regard to order (module
 * RuleSets), sorted by a four-string key.
 */
module AdAcl {
  import opened Ordering
  import opened SidPatterns
  import opened RuleSets

  /** One element of `audit_rules`: a hash with exactly these four keys. */
  datatype AuditRule = AuditRule(identity: string, adRights: string, auditFlags: string, inheritanceType: string)

  /** One element of `access_rules`: the third key is `access_control_type`. */
  datatype AccessRule = AccessRule(identity: string, adRights: string, accessControlType: string, inheritanceType: string)

  /** Ruby's ArgumentError, raised by a `validate` block. */
  datatype ArgumentError = ArgumentError(message: string)

  datatype Result<T> = Ok(value: T) | Err(error: ArgumentError)

  const AuditIdentityMessage := "Audit rules currently only accept SIDs as identifiers"
  const AccessIdentityMessage := "Access rules currently only accept SIDs as identifiers"

  // ---------------------------------------------------------------------
  // validate
  // ---------------------------------------------------------------------

  /** The `audit_rules` validate block: the rule passes unchanged when some
      line of its identity is an audit SID, and ArgumentError is raised with
      the audit message otherwise. */
  function ValidateAuditRule(value: AuditRule): (r: Result<AuditRule>)
    ensures r.Ok? <==> exists k :: 0 <= k < |Lines(value.identity)| && IsAuditSid(Lines(value.identity)[k])
    ensures r.Ok? ==> r.value == value
    ensures r.Err? ==> r.error == ArgumentError(AuditIdentityMessage)
  {
    var lines := Lines(value.identity);
    assert forall k :: 0 <= k < |lines| ==> (MatchesAuditLine(lines[k]) <==> IsAuditSid(lines[k])) by {
      forall k | 0 <= k < |lines| {
        AuditLineIffSid(lines[k]);
      }
    }
    if AuditPatternMatches(value.identity) then Ok(value) else Err(ArgumentError(AuditIdentityMessage))
  }

  /** The `access_rules` validate block: the rule passes unchanged when some
      line of its identity is "S-", digits and anything after, and
      ArgumentError is raised with the access message otherwise. */
  function ValidateAccessRule(value: AccessRule): (r: Result<AccessRule>)
    ensures r.Ok? <==> exists k :: 0 <= k < |Lines(value.identity)| && IsAccessSid(Lines(value.identity)[k])
    ensures r.Ok? ==> r.value == value
    ensures r.Err? ==> r.error == ArgumentError(AccessIdentityMessage)
  {
    var lines := Lines(value.identity);
    assert forall k :: 0 <= k < |lines| ==> (MatchesAccessLine(lines[k]) <==> IsAccessSid(lines[k])) by {
      forall k | 0 <= k < |lines| {
        AccessLineIffSid(lines[k]);
      }
    }
    if AccessPatternMatches(value.identity) then Ok(value) else Err(ArgumentError(AccessIdentityMessage))
  }

  /** The audit check is the stricter one: an identity that an audit rule may
      carry, an access rule may carry too. */
  lemma AuditIdentityAcceptedForAccess(audit: AuditRule, access: AccessRule)
    requires audit.identity == access.identity
    ensures ValidateAuditRule(audit).Ok? ==> ValidateAccessRule(access).Ok?
  {
    AuditPatternImpliesAccessPattern(audit.identity);
  }

  // ---------------------------------------------------------------------
  // sort keys and insync?
  // ---------------------------------------------------------------------

  function AuditKey(r: AuditRule): seq<string> {
    [r.identity, r.adRights, r.auditFlags, r.inheritanceType]
  }

  function AccessKey(r: AccessRule): seq<string> {
    [r.identity, r.adRights, r.accessControlType, r.inheritanceType]
  }

  /** The comparator block of the `audit_rules` sort: Array#<=> on the keys. */
  function CompareAuditRules(a: AuditRule, b: AuditRule): int {
    CompareKeys(AuditKey(a), AuditKey(b))
  }

  /** The comparator block of the `access_rules` sort: Array#<=> on the keys. */
  function CompareAccessRules(a: AccessRule, b: AccessRule): int {
    CompareKeys(AccessKey(a), AccessKey(b))
  }

  /** A rule is nothing but its key, so the audit comparator is a total order:
      it ties only identical rules. */
  lemma AuditRuleOrder()
    ensures IsTotalOrder(CompareAuditRules)
  {
    KeyOrder();
    forall a, b | AuditKey(a) == AuditKey(b) ensures a == b {
      assert AuditKey(a)[0] == AuditKey(b)[0] && AuditKey(a)[1] == AuditKey(b)[1];
      assert AuditKey(a)[2] == AuditKey(b)[2] && AuditKey(a)[3] == AuditKey(b)[3];
    }
  }

  /** The access comparator is a total order too. */
  lemma AccessRuleOrder()
    ensures IsTotalOrder(CompareAccessRules)
  {
    KeyOrder();
    forall a, b | AccessKey(a) == AccessKey(b) ensures a == b {
      assert AccessKey(a)[0] == AccessKey(b)[0] && AccessKey(a)[1] == AccessKey(b)[1];
      assert AccessKey(a)[2] == AccessKey(b)[2] && AccessKey(a)[3] == AccessKey(b)[3];
    }
  }

  /** `is.sort` / `should.sort` for audit rules: a permutation ordered by
      (identity, ad_rights, audit_flags, inheritance_type). */
  function SortAuditRules(rules: seq<AuditRule>): (sorted: seq<AuditRule>)
    ensures multiset(sorted) == multiset(rules)
    ensures forall i, j :: 0 <= i < j < |sorted| ==> CompareKeys(AuditKey(sorted[i]), AuditKey(sorted[j])) <= 0
  {
    AuditRuleOrder();
    TotalOrderIsTotalPreorder(CompareAuditRules);
    Sort(rules, CompareAuditRules)
  }

  /** `is.sort` / `should.sort` for access rules: a permutation ordered by
      (identity, ad_rights, access_control_type, inheritance_type). */
  function SortAccessRules(rules: seq<AccessRule>): (sorted: seq<AccessRule>)
    ensures multiset(sorted) == multiset(rules)
    ensures forall i, j :: 0 <= i < j < |sorted| ==> CompareKeys(AccessKey(sorted[i]), AccessKey(sorted[j])) <= 0
  {
    AccessRuleOrder();
    TotalOrderIsTotalPreorder(CompareAccessRules);
    Sort(rules, CompareAccessRules)
  }

  /** `insync?` of `audit_rules`: the sorted arrays are equal exactly when
      both sides hold the same rules, each as many times. */
  function AuditRulesInSync(current: seq<AuditRule>, desired: seq<AuditRule>): (r: bool)
    ensures r <==> multiset(current) == multiset(desired)
  {
    AuditRuleOrder();
    InSyncIffSameMultiset(current, desired, CompareAuditRules);
    SortAuditRules(current) == SortAuditRules(desired)
  }

  /** `insync?` of `access_rules`: the sorted arrays are equal exactly when
      both sides hold the same rules, each as many times. */
  function AccessRulesInSync(current: seq<AccessRule>, desired: seq<AccessRule>): (r: bool)
    ensures r <==> multiset(current) == multiset(desired)
  {
    AccessRuleOrder();
    InSyncIffSameMultiset(current, desired, CompareAccessRules);
    SortAccessRules(current) == SortAccessRules(desired)
  }

  // ---------------------------------------------------------------------
  // examples
  // ---------------------------------------------------------------------

  /** Every domain SID passes the audit check, whatever the rule's other
      fields. */
  lemma AuditAcceptsDomainSids(rule: AuditRule, a: string, b: string, c: string, rid: string)
    requires IsDigits(a) && IsDigits(b) && IsDigits(c) && IsDigits(rid)
    requires rule.identity == "S-1-5-21-" + a + "-" + b + "-" + c + "-" + rid
    ensures ValidateAuditRule(rule) == Ok(rule)
  {
    DomainSidIsAuditLine(a, b, c, rid);
    AllDigitsAt(a);
    AllDigitsAt(b);
    AllDigitsAt(c);
    AllDigitsAt(rid);
    assert '\n' !in rule.identity;
    SingleLine(rule.identity);
  }

  lemma ExampleSidParts(sid: string)
    requires sid == "S-1-5-21-1004336348-1177238915-682003330-512"
    ensures sid == "S-1-5-21-" + "1004336348" + "-" + "1177238915" + "-" + "682003330" + "-" + "512"
  {
  }

  lemma ExampleDomainIsDigits()
    ensures IsDigits("1004336348") && IsDigits("1177238915")
  {
    assert IsDigits("1004336348");
  }

  lemma ExampleRidIsDigits()
    ensures IsDigits("682003330") && IsDigits("512")
  {
    assert IsDigits("682003330");
  }

  /** The domain administrators' SID of one domain passes the audit check. */
  lemma AuditAcceptsExampleSid(rule: AuditRule)
    requires rule.identity == "S-1-5-21-1004336348-1177238915-682003330-512"
    ensures ValidateAuditRule(rule) == Ok(rule)
  {
    ExampleSidParts(rule.identity);
    ExampleDomainIsDigits();
    ExampleRidIsDigits();
    AuditAcceptsDomainSids(rule, "1004336348", "1177238915", "682003330", "512");
  }

  /** A user name fails the audit check with the audit message. */
  lemma AuditRejectsUserName(rule: AuditRule)
    requires rule.identity == "bob"
    ensures ValidateAuditRule(rule) == Err(ArgumentError(AuditIdentityMessage))
  {
    SingleLine(rule.identity);
  }

  /** The access check wants only "S-" and a digit at the start of a line. */
  lemma AccessAcceptsSidPrefix(rule: AccessRule)
    requires rule.identity == "S-1-1-0" || rule.identity == "S-1-anything-else"
    ensures ValidateAccessRule(rule) == Ok(rule)
  {
    SingleLine(rule.identity);
  }

  /** An identity without the leading "S-" fails the access check with the
      access message. */
  lemma AccessRejectsMissingPrefix(rule: AccessRule)
    requires rule.identity == "1-2-3"
    ensures ValidateAccessRule(rule) == Err(ArgumentError(AccessIdentityMessage))
  {
    SingleLine(rule.identity);
  }

  /** The two checks differ: a SID with no sub-authority, or with text after
      the first digit, is an access identity but not an audit identity. */
  lemma ValidationAsymmetry(audit: AuditRule, access: AccessRule)
    requires audit.identity == access.identity
    requires audit.identity == "S-1-5" || audit.identity == "S-1-x"
    ensures ValidateAccessRule(access).Ok? && ValidateAuditRule(audit).Err?
  {
    var id := audit.identity;
    SingleLine(id);
    if id == "S-1-5" {
      assert id[4..] == "5";
      LastGroup("5", 1, 14);
    } else {
      assert id[4..] == "x";
      assert IndexOf("x", '-') == 1;
    }
  }

  lemma ShortSidMatches(line: string)
    requires line == "S-1-5-21"
    ensures MatchesAuditLine(line) && MatchesAccessLine(line)
  {
    assert IsDigits("5") && IsDigits("21");
    JoinedGroupsMatch(["5", "21"], 1, 14);
    assert JoinGroups(["5", "21"]) == "5-21";
    assert line[4..] == "5-21";
  }

  /** `^` and `$` anchor at line breaks: one matching line is enough, so an
      identity whose first line is anything without a newline (a user name,
      say) and whose second line is an audit SID passes both checks. */
  lemma ValidationMatchesAnyLine(audit: AuditRule, access: AccessRule, user: string, sid: string)
    requires '\n' !in user && '\n' !in sid && IsAuditSid(sid)
    requires audit.identity == access.identity == user + "\n" + sid
    ensures ValidateAuditRule(audit).Ok? && ValidateAccessRule(access).Ok?
  {
    TwoLines(user, sid);
    AuditLineIffSid(sid);
    AccessLineIffSid(sid);
    var lines := Lines(audit.identity);
    assert lines[1] == sid;
  }

  /** A single rule is in sync with itself; two rules given in the other order
      are in sync, but not when one of them has other rights. */
  lemma AccessRulesInSyncExamples()
    ensures
      var full := AccessRule("S-1-1-0", "FullControl", "Allow", "None");
      AccessRulesInSync([full], [full])
    ensures
      var a := AccessRule("S-1-1-0", "FullControl", "Allow", "None");
      var b := AccessRule("S-1-5-32-544", "GenericRead", "Deny", "All");
      var b' := b.(adRights := "GenericWrite");
      AccessRulesInSync([a, b], [b, a]) && !AccessRulesInSync([a, b], [b', a])
  {
    var a := AccessRule("S-1-1-0", "FullControl", "Allow", "None");
    var b := AccessRule("S-1-5-32-544", "GenericRead", "Deny", "All");
    var b' := b.(adRights := "GenericWrite");
    assert multiset([a, b]) == multiset([b, a]);
    assert b' !in multiset([a, b]);
  }
}
