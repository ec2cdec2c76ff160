# ad_acl resource type

A Dafny model of the Puppet resource type `ad_acl`, which describes the access-control list of an object on an Active Directory server. The model covers the type's own logic, which decides whether the live state of the ACL is in sync with the declared one:

- **Scalar properties** (`name`, `owner`, `group`). Each compares the current value with the declared one using `is.casecmp(should.downcase).zero?`, so ASCII case is ignored. The `name` parameter is stored lower-cased by its `munge`. See module `CaseFold` in `case_fold.dfy`.
- **Rule validation.** Every element of `audit_rules` and `access_rules` is a hash with four string keys. A `validate` block checks the rule's `identity` against a regular expression and raises `ArgumentError` with a fixed message when it does not match. The two expressions are `^S-\d-(\d+-){1,14}\d+$` and `^S-\d+.*$`. They are modelled by hand-written matchers in module `SidPatterns` (`sid_patterns.dfy`). Ruby's `^` and `$` anchor at line breaks, so the model splits the identity into lines and accepts it when any line matches. Each matcher is proved equivalent to an independent description of the SIDs it accepts.
- **Rule-set comparison.** The `insync?` of `audit_rules` and `access_rules` sorts both arrays by the key `[identity, ad_rights, <third key>, inheritance_type]` using Array#<=> and compares the sorted arrays with `==`. Module `RuleSets` (`rule_sets.dfy`) models sorting with a comparator and proves the following:
  - the sort returns a sorted permutation of its input;
  - under a comparator with no ties there is only one sorted permutation;
  - so the comparison holds exactly when both sides contain the same rules, each the same number of times.
- **Ordering.** Ruby's `<=>` on strings and on arrays of strings is modelled in module `Ordering` (`ordering.dfy`). Both are the same lexicographic rule, and it is proved to be a total order.
- **The resource type.** Module `AdAcl` (`ad_acl.dfy`) contains:
  - the two record shapes;
  - the validators;
  - the two comparators, proved to be total orders because a rule is nothing but its four keys;
  - the two `insync?` functions;
  - worked examples.

## Model

| member | source | states |
|---|---|---|
| Ordering.LexZeroIffEqual | lib/puppet/type/ad_acl.rb:51 | Under a total element order, `<=>` on sequences answers zero exactly when the sequences are equal |
| Ordering.LexAntisymmetric | lib/puppet/type/ad_acl.rb:51 | Swapping the operands of `<=>` on sequences negates the answer |
| Ordering.LexTransitive | lib/puppet/type/ad_acl.rb:51 | "Sorts at most" under `<=>` on sequences is transitive |
| Ordering.LexIsTotalOrder | lib/puppet/type/ad_acl.rb:51 | Lexicographic extension of a total order is a total order |
| Ordering.StringOrder | lib/puppet/type/ad_acl.rb:12 | String#<=>, the comparison under casecmp, is a total order |
| Ordering.KeyOrder | lib/puppet/type/ad_acl.rb:46-56 | Array#<=> on the four-string sort keys is a total order |
| CaseFold.DowncaseChar | lib/puppet/type/ad_acl.rb:12 | A-Z map onto a-z at a fixed offset; every other character is unchanged; no result is an ASCII capital |
| CaseFold.Downcase | lib/puppet/type/ad_acl.rb:12 | `downcase` keeps the length and lower-cases each character in place |
| CaseFold.LowerCasedIffFixedPoint | lib/puppet/type/ad_acl.rb:9 | A string has no ASCII capital exactly when `downcase` leaves it unchanged |
| CaseFold.CaseCompare | lib/puppet/type/ad_acl.rb:12 | `casecmp` answers -1, 0 or 1, and answers 0 exactly when both sides agree after lower-casing |
| CaseFold.IdentityInSync | lib/puppet/type/ad_acl.rb:11-13 | `insync?` of `name` holds exactly when the current and declared values agree after ASCII lower-casing |
| CaseFold.MungeName | lib/puppet/type/ad_acl.rb:9 | The munged name has no ASCII capital, has the declared name's length, and differs from it only by lower-casing capitals |
| CaseFold.MungeNameIdempotent | lib/puppet/type/ad_acl.rb:9 | Munging a munged name changes nothing |
| CaseFold.IdentityInSyncIgnoresCase | lib/puppet/type/ad_acl.rb:19-21 | The comparison used by `owner` is reflexive and symmetric, and re-casing either side does not change it; this holds for ASCII case only (see the first line under "Left out") |
| CaseFold.NameInSyncAfterMunge | lib/puppet/type/ad_acl.rb:9-13 | Comparing with the munged name answers the same as comparing with the declared one |
| CaseFold.IdentityInSyncExample | lib/puppet/type/ad_acl.rb:27-29 | `group` "DC=Foo" is in sync with "dc=fOO" but not with "DC=Bar" |
| SidPatterns.AllDigitsAt | lib/puppet/type/ad_acl.rb:36 | The recursive `\d*` test holds exactly when every character is an ASCII digit |
| SidPatterns.IndexOf | lib/puppet/type/ad_acl.rb:36 | The search returns the position of the first separator, or the length when there is none |
| SidPatterns.Split | lib/puppet/type/ad_acl.rb:36 | Splitting yields at least one piece, and no piece holds the separator; `JoinSplit` and `SplitJoin` show it is undone by joining |
| SidPatterns.JoinSplit | lib/puppet/type/ad_acl.rb:36 | Joining the pieces of a split with the separator gives back the string, so the lines of an identity are exactly its newline-delimited segments |
| SidPatterns.SplitJoin | lib/puppet/type/ad_acl.rb:36 | Splitting a join of one or more separator-free pieces gives back those pieces |
| SidPatterns.SplitFirst | lib/puppet/type/ad_acl.rb:36 | Splitting takes the text before the first separator, then splits the rest |
| SidPatterns.IndexOfAfterPrefix | lib/puppet/type/ad_acl.rb:36 | In a separator-free prefix followed by a separator, the first separator is the one after the prefix |
| SidPatterns.GroupThenRest | lib/puppet/type/ad_acl.rb:36 | A digit group and '-' in front of a match of `(\d+-){n,m}\d+` give a match with one more group |
| SidPatterns.LastGroup | lib/puppet/type/ad_acl.rb:36 | A lone digit run matches the final `\d+` exactly when no repeated group is required |
| SidPatterns.JoinedGroupsMatch | lib/puppet/type/ad_acl.rb:36 | Digit groups joined by '-' match `(\d+-){lo,hi}\d+` when their number is within the bounds |
| SidPatterns.DomainSidGroups | lib/puppet/type/ad_acl.rb:36 | A domain SID "S-1-5-21-a-b-c-rid" is "S-1-" followed by its six joined groups |
| SidPatterns.DomainSidIsAuditLine | lib/puppet/type/ad_acl.rb:36 | Every domain SID built from digit runs matches the audit pattern on its line |
| SidPatterns.MatchesGroupsIffFields | lib/puppet/type/ad_acl.rb:36 | The group matcher accepts exactly the strings whose '-' fields are non-empty digit runs, with a field count within the bounds |
| SidPatterns.SplitSidPrefix | lib/puppet/type/ad_acl.rb:36 | Splitting "S-d-rest" on '-' gives "S", "d" and then the fields of the rest |
| SidPatterns.AuditLineIffSid | lib/puppet/type/ad_acl.rb:36 | A line matches the audit pattern exactly when it is "S", one digit, and two to fifteen digit runs, all separated by '-' |
| SidPatterns.AccessLineIffSid | lib/puppet/type/ad_acl.rb:81 | A line matches the access pattern exactly when it starts with "S-" and a non-empty digit run |
| SidPatterns.AuditPatternImpliesAccessPattern | lib/puppet/type/ad_acl.rb:36 | An identity that matches the audit pattern also matches the access pattern |
| SidPatterns.TwoLines | lib/puppet/type/ad_acl.rb:36 | Two newline-free lines joined by a newline split back into the same two lines |
| SidPatterns.SingleLine | lib/puppet/type/ad_acl.rb:81 | An identity without a newline is its own only line, so the pattern applies to the whole identity |
| AdAcl.ValidateAuditRule | lib/puppet/type/ad_acl.rb:35-42 | An audit rule passes unchanged exactly when some line of its identity is an audit SID; otherwise ArgumentError carries the audit message |
| AdAcl.ValidateAccessRule | lib/puppet/type/ad_acl.rb:80-87 | An access rule passes unchanged exactly when some line of its identity starts with "S-" and digits; otherwise ArgumentError carries the access message |
| AdAcl.AuditIdentityAcceptedForAccess | lib/puppet/type/ad_acl.rb:36 | Any identity that an audit rule accepts is also accepted by an access rule |
| AdAcl.AuditRuleOrder | lib/puppet/type/ad_acl.rb:45-57 | The audit sort comparator is a total order; it ties only identical rules |
| AdAcl.AccessRuleOrder | lib/puppet/type/ad_acl.rb:90-102 | The access sort comparator is a total order; it ties only identical rules |
| AdAcl.SortAuditRules | lib/puppet/type/ad_acl.rb:45-71 | The sorted audit rules are a permutation of the input, ordered by (identity, ad_rights, audit_flags, inheritance_type) |
| AdAcl.SortAccessRules | lib/puppet/type/ad_acl.rb:90-116 | The sorted access rules are a permutation of the input, ordered by (identity, ad_rights, access_control_type, inheritance_type) |
| AdAcl.AuditRulesInSync | lib/puppet/type/ad_acl.rb:44-74 | `insync?` of `audit_rules` holds exactly when both arrays contain the same rules, each the same number of times |
| AdAcl.AccessRulesInSync | lib/puppet/type/ad_acl.rb:89-119 | `insync?` of `access_rules` holds exactly when both arrays contain the same rules, each the same number of times |
| AdAcl.AuditAcceptsDomainSids | lib/puppet/type/ad_acl.rb:35-42 | Every domain SID "S-1-5-21-a-b-c-rid" with digit parts passes the audit validation unchanged |
| AdAcl.AuditAcceptsExampleSid | lib/puppet/type/ad_acl.rb:35-42 | "S-1-5-21-1004336348-1177238915-682003330-512" passes the audit validation unchanged |
| AdAcl.AuditRejectsUserName | lib/puppet/type/ad_acl.rb:38-41 | The identity "bob" fails the audit validation with the audit message |
| AdAcl.AccessAcceptsSidPrefix | lib/puppet/type/ad_acl.rb:80-83 | "S-1-1-0" and "S-1-anything-else" both pass the access validation unchanged |
| AdAcl.AccessRejectsMissingPrefix | lib/puppet/type/ad_acl.rb:83-86 | "1-2-3" fails the access validation with the access message |
| AdAcl.ValidationAsymmetry | lib/puppet/type/ad_acl.rb:36 | "S-1-5" and "S-1-x" pass the access validation but fail the audit validation |
| AdAcl.ShortSidMatches | lib/puppet/type/ad_acl.rb:81 | The line "S-1-5-21" matches both patterns |
| AdAcl.ValidationMatchesAnyLine | lib/puppet/type/ad_acl.rb:35-37 | Any newline-free first line (a user name, say) followed by any audit SID on the second line passes both validations |
| AdAcl.AccessRulesInSyncExamples | lib/puppet/type/ad_acl.rb:89-118 | One rule is in sync with itself; two rules in swapped order are in sync; changing one rule's rights breaks the match |
| RuleSets.HeadIsLeast | lib/puppet/type/ad_acl.rb:45 | The first element of a sorted sequence either equals each element or sorts at most it |
| RuleSets.ConsSorted | lib/puppet/type/ad_acl.rb:45 | Putting an element that sorts at most every element in front keeps a sequence sorted |
| RuleSets.SortedTail | lib/puppet/type/ad_acl.rb:45 | The tail of a sorted sequence is sorted and holds the remaining elements |
| RuleSets.InsertBeforeHead | lib/puppet/type/ad_acl.rb:45 | Inserting in front of a head that the new element sorts at most keeps the sequence sorted |
| RuleSets.HeadBeforeRest | lib/puppet/type/ad_acl.rb:45 | The head stays first when an element that sorts after it goes into the rest |
| RuleSets.InsertAfterHead | lib/puppet/type/ad_acl.rb:45 | Passing the new element over the head keeps the sequence sorted |
| RuleSets.Insert | lib/puppet/type/ad_acl.rb:45 | Insertion adds exactly one copy of the element and keeps a sorted sequence sorted under a total preorder |
| RuleSets.Sort | lib/puppet/type/ad_acl.rb:45-57 | `sort` with a comparator block returns a permutation of its input, sorted when the comparator is a total preorder |
| RuleSets.TotalOrderIsTotalPreorder | lib/puppet/type/ad_acl.rb:45-57 | A total-order comparator orders every pair and is transitive |
| RuleSets.TotalOrderIsAntisymmetric | lib/puppet/type/ad_acl.rb:45-57 | A total-order comparator never ties two different values |
| RuleSets.SameHead | lib/puppet/type/ad_acl.rb:73 | Two sorted sequences with the same elements start with the same element and have tails with the same elements |
| RuleSets.SortedPermutationsEqual | lib/puppet/type/ad_acl.rb:73 | Under a comparator without ties, two sorted sequences with the same elements are equal |
| RuleSets.InSyncImpliesSameMultiset | lib/puppet/type/ad_acl.rb:73 | With any comparator, equal sorted arrays hold the same elements, each the same number of times |
| RuleSets.InSyncIffSameMultiset | lib/puppet/type/ad_acl.rb:44-74 | Under a total order, the sort-and-compare holds exactly when both sides are equal as multisets |
| RuleSets.InSyncOrderIndependent | lib/puppet/type/ad_acl.rb:44-74 | Reordering either side does not change the sort-and-compare answer |
| RuleSets.NotInSyncWithExtraCopy | lib/puppet/type/ad_acl.rb:73 | An extra copy of a rule on either side makes the sides not in sync |
| RuleSets.NotInSyncWhenLengthsDiffer | lib/puppet/type/ad_acl.rb:118 | Sides of different lengths are never in sync |

## Left out

- CaseFold.IdentityInSync: folds ASCII only. Ruby's `downcase` also maps non-ASCII letters, but `casecmp` folds only A-Z, so the source lowers a non-ASCII capital on the declared side only. As a result, the source's `insync?` for `name`, `owner` and `group` is neither reflexive nor symmetric on such values. For example, with declared "Ärzte" and current "Ärzte", the source compares "Ärzte" with "ärzte", which is not zero, so the property stays out of sync. The model is reflexive and symmetric (`CaseFold.IdentityInSyncIgnoresCase`) and matches the source only on values whose capitals are ASCII.
- `casecmp` returns nil for strings with incompatible encodings. Strings here are sequences of characters, so that case does not arise.
- Byte order: Ruby compares strings byte by byte in UTF-8. The model compares characters by code point, which gives the same order for UTF-8.
- Puppet's type DSL (`newtype`, `newparam`, `newproperty`, `desc`, `array_matching: :all`) and the framework that calls `munge`, `validate` and `insync?` are not modelled. Each block is modelled as a function on its value.
- The provider that reads the current state and applies changes is not part of this model, because it is I/O. The current value `is` is a parameter.
- Rule hashes with missing keys, extra keys or non-string values are not modelled. Each record has exactly the four string fields the comparator reads. Under Ruby, a missing `identity` fails validation with the same message, and extra keys take part in `==` but not in the sort.
- Ruby's `sort` is an unstable quicksort. `RuleSets.Sort` is an insertion sort, and only its result matters: it is a sorted permutation. Because the comparator has no ties, any correct sort gives the same result.
- Ruby's `sort` copies the array and leaves `is` and `should` unchanged. Dafny sequences are values, which captures this.
- Regular expressions are modelled by matchers written for the two fixed patterns, not by a general regex engine. Ruby treats only '\n' as a line break for `^` and `$`, and so does the model.
