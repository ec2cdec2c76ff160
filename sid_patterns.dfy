/**
 * The two identity patterns of the rule validators, hand-coded.
 *
 *   audit rules:  %r{^S-\d-(\d+-){1,14}\d+$}
 *   access rules: %r{^S-\d+.*$}
 *
 * In a Ruby regular expression `^` and `$` anchor at line boundaries, not at
 * the ends of the string, and `\d` is an ASCII digit. So a pattern matches an
 * identity when it matches some whole line of it; `Lines` cuts the identity
 * at each newline and the `...PatternMatches` predicates ask for one line that
 * matches. The two patterns differ in strictness on purpose and are kept
 * apart.
 */
module SidPatterns {

  predicate IsDigit(c: char) {
    '0' <= c <= '9'
  }

  /** Every character of `s` is an ASCII digit. */
  predicate AllDigits(s: string) {
    |s| == 0 || (IsDigit(s[0]) && AllDigits(s[1..]))
  }

  /** `\d+`: one or more ASCII digits. */
  predicate IsDigits(s: string) {
    |s| > 0 && AllDigits(s)
  }

  lemma {:induction false} AllDigitsAt(s: string)
    ensures AllDigits(s) <==> forall i :: 0 <= i < |s| ==> IsDigit(s[i])
  {
    if |s| > 0 {
      AllDigitsAt(s[1..]);
      assert forall i :: 1 <= i < |s| ==> s[i] == s[1..][i - 1];
    }
  }

  /** Position of the first `sep` in `s`, or `|s|` when there is none. */
  function IndexOf(s: string, sep: char): (i: nat)
    ensures i <= |s|
    ensures i < |s| ==> s[i] == sep
    ensures forall j :: 0 <= j < i ==> s[j] != sep
  {
    if s == [] || s[0] == sep then 0 else 1 + IndexOf(s[1..], sep)
  }

  /** The pieces of `s` between occurrences of `sep`; `n` separators give
      `n + 1` pieces, none of which holds `sep`. */
  function Split(s: string, sep: char): (pieces: seq<string>)
    ensures |pieces| >= 1
    ensures forall k :: 0 <= k < |pieces| ==> sep !in pieces[k]
    decreases |s|
  {
    var i := IndexOf(s, sep);
    if i == |s| then [s] else [s[..i]] + Split(s[i + 1..], sep)
  }

  /** The lines that `^` and `$` delimit. */
  function Lines(s: string): seq<string> {
    Split(s, '\n')
  }

  // ---------------------------------------------------------------------
  // Audit rules: ^S-\d-(\d+-){1,14}\d+$
  // ---------------------------------------------------------------------

  /** Matcher for `(\d+-){atLeast,atMost}\d+` on a whole string: a group of
      digits ends at the first '-', so the groups are taken off one by one. */
  function MatchesGroups(s: string, atLeast: nat, atMost: nat): bool
    decreases |s|
  {
    var i := IndexOf(s, '-');
    if i == |s| then
      atLeast == 0 && IsDigits(s)
    else
      && IsDigits(s[..i])
      && atMost > 0
      && MatchesGroups(s[i + 1..], if atLeast > 0 then atLeast - 1 else 0, atMost - 1)
  }

  /** Matcher for `S-\d-(\d+-){1,14}\d+` on one whole line. */
  predicate MatchesAuditLine(line: string) {
    && |line| >= 4
    && line[0] == 'S' && line[1] == '-' && IsDigit(line[2]) && line[3] == '-'
    && MatchesGroups(line[4..], 1, 14)
  }

  /** `=~` with the audit pattern: some line of the identity matches. */
  predicate AuditPatternMatches(identity: string) {
    var lines := Lines(identity);
    exists k :: 0 <= k < |lines| && MatchesAuditLine(lines[k])
  }

  /** Reference description of an audit SID, by its '-'-separated fields:
      "S", one digit, then two to fifteen non-empty runs of digits (one to
      fourteen repeated groups and the final one). */
  predicate IsAuditSid(line: string) {
    var fields := Split(line, '-');
    && 4 <= |fields| <= 17
    && fields[0] == "S"
    && |fields[1]| == 1 && IsDigit(fields[1][0])
    && forall k :: 2 <= k < |fields| ==> IsDigits(fields[k])
  }

  /** `Split` takes off the piece before the first separator, and there is
      more than one piece exactly when there is a separator. */
  lemma SplitFirst(s: string, sep: char)
    ensures var i := IndexOf(s, sep);
      && Split(s, sep)[0] == s[..i]
      && (|Split(s, sep)| > 1 <==> i < |s|)
      && (i < |s| ==> Split(s, sep)[1..] == Split(s[i + 1..], sep))
  {
  }

  /** The pieces put back together with `sep` between neighbours. */
  function Join(pieces: seq<string>, sep: char): string
    decreases |pieces|
  {
    if |pieces| == 0 then ""
    else if |pieces| == 1 then pieces[0]
    else pieces[0] + [sep] + Join(pieces[1..], sep)
  }

  /** Joining a piece in front of at least one other puts `sep` between. */
  lemma JoinCons(head: string, rest: seq<string>, sep: char)
    requires |rest| >= 1
    ensures Join([head] + rest, sep) == head + [sep] + Join(rest, sep)
  {
    assert ([head] + rest)[1..] == rest;
  }

  /** Splitting loses nothing: joining the pieces gives back the string, so
      the lines of an identity are exactly its newline-delimited segments. */
  lemma {:induction false} JoinSplit(s: string, sep: char)
    ensures Join(Split(s, sep), sep) == s
    decreases |s|
  {
    var i := IndexOf(s, sep);
    if i < |s| {
      var head, tail := s[..i], s[i + 1..];
      var rest := Split(tail, sep);
      assert Split(s, sep) == [head] + rest;
      JoinSplit(tail, sep);
      JoinCons(head, rest, sep);
      assert s == head + [sep] + tail;
    }
  }

  /** Splitting a join of separator-free pieces gives back the pieces. */
  lemma {:induction false} SplitJoin(pieces: seq<string>, sep: char)
    requires |pieces| >= 1
    requires forall k :: 0 <= k < |pieces| ==> sep !in pieces[k]
    ensures Split(Join(pieces, sep), sep) == pieces
    decreases |pieces|
  {
    var head := pieces[0];
    assert sep !in head;
    if |pieces| == 1 {
      assert Join(pieces, sep) == head;
    } else {
      var others := pieces[1..];
      var rest := Join(others, sep);
      var s := head + [sep] + rest;
      assert pieces == [head] + others;
      JoinCons(head, others, sep);
      IndexOfAfterPrefix(head, sep, rest);
      assert s[..|head|] == head && s[|head| + 1..] == rest;
      SplitJoin(others, sep);
      assert Split(s, sep) == [head] + Split(rest, sep);
    }
  }

  /** The first separator after a separator-free prefix is the one that
      follows it. */
  lemma {:induction false} IndexOfAfterPrefix(prefix: string, sep: char, rest: string)
    requires sep !in prefix
    ensures IndexOf(prefix + [sep] + rest, sep) == |prefix|
  {
    if prefix != [] {
      assert (prefix + [sep] + rest)[1..] == prefix[1..] + [sep] + rest;
      IndexOfAfterPrefix(prefix[1..], sep, rest);
    }
  }

  /** The groups matcher takes one group of digits and its '-' off the front. */
  lemma GroupThenRest(group: string, rest: string, atLeast: nat, atMost: nat)
    requires IsDigits(group)
    ensures MatchesGroups(group + "-" + rest, atLeast, atMost) ==
      (atMost > 0 && MatchesGroups(rest, if atLeast > 0 then atLeast - 1 else 0, atMost - 1))
  {
    var s := group + "-" + rest;
    AllDigitsAt(group);
    assert '-' !in group by {
      forall i | 0 <= i < |group| ensures group[i] != '-' {
        assert IsDigit(group[i]);
      }
    }
    IndexOfAfterPrefix(group, '-', rest);
    assert s[..|group|] == group && s[|group| + 1..] == rest;
  }

  /** A lone group of digits is the final `\d+` of the groups pattern. */
  lemma LastGroup(group: string, atLeast: nat, atMost: nat)
    requires IsDigits(group)
    ensures MatchesGroups(group, atLeast, atMost) == (atLeast == 0)
  {
    AllDigitsAt(group);
    assert '-' !in group by {
      forall i | 0 <= i < |group| ensures group[i] != '-' {
        assert IsDigit(group[i]);
      }
    }
  }

  /** Runs of digits with '-' between them, as an identity writes its
      sub-authorities. */
  function JoinGroups(groups: seq<string>): string
    requires |groups| > 0
  {
    if |groups| == 1 then groups[0] else groups[0] + "-" + JoinGroups(groups[1..])
  }

  /** Any number of digit groups within the repetition bounds, joined by '-',
      matches `(\d+-){atLeast,atMost}\d+`. */
  lemma {:induction false} JoinedGroupsMatch(groups: seq<string>, atLeast: nat, atMost: nat)
    requires atLeast < |groups| <= atMost + 1
    requires forall k :: 0 <= k < |groups| ==> IsDigits(groups[k])
    ensures MatchesGroups(JoinGroups(groups), atLeast, atMost)
  {
    if |groups| == 1 {
      LastGroup(groups[0], atLeast, atMost);
    } else {
      JoinedGroupsMatch(groups[1..], if atLeast > 0 then atLeast - 1 else 0, atMost - 1);
      GroupThenRest(groups[0], JoinGroups(groups[1..]), atLeast, atMost);
    }
  }

  lemma DomainSidGroups(a: string, b: string, c: string, rid: string)
    ensures JoinGroups(["5", "21", a, b, c, rid]) == "5-21-" + a + "-" + b + "-" + c + "-" + rid
  {
    var groups := ["5", "21", a, b, c, rid];
    assert JoinGroups(groups[5..]) == rid;
    assert JoinGroups(groups[4..]) == c + "-" + rid;
    assert JoinGroups(groups[3..]) == b + "-" + (c + "-" + rid);
    assert JoinGroups(groups[2..]) == a + "-" + (b + "-" + (c + "-" + rid));
    assert JoinGroups(groups[1..]) == "21" + "-" + (a + "-" + (b + "-" + (c + "-" + rid)));
  }

  /** Every domain SID, S-1-5-21 followed by three sub-authorities and a
      relative identifier, is an audit line. */
  lemma DomainSidIsAuditLine(a: string, b: string, c: string, rid: string)
    requires IsDigits(a) && IsDigits(b) && IsDigits(c) && IsDigits(rid)
    ensures MatchesAuditLine("S-1-5-21-" + a + "-" + b + "-" + c + "-" + rid)
  {
    var rest := "5-21-" + a + "-" + b + "-" + c + "-" + rid;
    var groups := ["5", "21", a, b, c, rid];
    assert IsDigits("5") && IsDigits("21");
    JoinedGroupsMatch(groups, 1, 14);
    DomainSidGroups(a, b, c, rid);
    var line := "S-1-" + rest;
    assert line == "S-1-5-21-" + a + "-" + b + "-" + c + "-" + rid;
    assert line[4..] == rest;
  }

  /** The groups matcher accepts exactly the strings whose '-'-separated
      fields are all runs of digits, and as many of them as the repetition
      bounds allow. */
  lemma {:induction false} MatchesGroupsIffFields(s: string, atLeast: nat, atMost: nat)
    ensures MatchesGroups(s, atLeast, atMost) <==>
      var fields := Split(s, '-');
      && atLeast + 1 <= |fields| <= atMost + 1
      && forall k :: 0 <= k < |fields| ==> IsDigits(fields[k])
    decreases |s|
  {
    var i := IndexOf(s, '-');
    var fields := Split(s, '-');
    SplitFirst(s, '-');
    if i < |s| && atMost > 0 {
      var rest := s[i + 1..];
      var tail := Split(rest, '-');
      MatchesGroupsIffFields(rest, if atLeast > 0 then atLeast - 1 else 0, atMost - 1);
      assert fields == [s[..i]] + tail;
      assert (forall k :: 0 <= k < |fields| ==> IsDigits(fields[k])) <==>
        IsDigits(s[..i]) && forall k :: 0 <= k < |tail| ==> IsDigits(tail[k])
      by {
        assert forall k :: 0 <= k < |tail| ==> tail[k] == fields[k + 1];
      }
    }
  }

  /** A line that opens with "S", '-', one character other than '-' and '-'
      splits into "S", that character, and the pieces of the remainder. */
  lemma SplitSidPrefix(line: string)
    requires |line| >= 4 && line[0] == 'S' && line[1] == '-' && line[2] != '-' && line[3] == '-'
    ensures Split(line, '-') == ["S", [line[2]]] + Split(line[4..], '-')
  {
    var fields, more := Split(line, '-'), Split(line[2..], '-');
    assert IndexOf(line, '-') == 1;
    SplitFirst(line, '-');
    SplitFirst(line[2..], '-');
    assert IndexOf(line[2..], '-') == 1;
    assert line[2..][2..] == line[4..];
    assert line[..1] == "S" && line[2..][..1] == [line[2]];
    assert fields == [fields[0]] + more && more == [more[0]] + more[1..];
  }

  /** The audit matcher accepts a line exactly when it is an audit SID. */
  lemma AuditLineIffSid(line: string)
    ensures MatchesAuditLine(line) <==> IsAuditSid(line)
  {
    if MatchesAuditLine(line) {
      SplitSidPrefix(line);
      MatchesGroupsIffFields(line[4..], 1, 14);
      assert Split(line[4..], '-') == Split(line, '-')[2..];
    }
    if IsAuditSid(line) {
      // "S" before the first '-', then a one-digit field closed by another '-'
      var fields, after := Split(line, '-'), line[2..];
      SplitFirst(line, '-');
      assert IndexOf(line, '-') == 1;
      SplitFirst(after, '-');
      assert Split(after, '-')[0] == fields[1];
      assert IndexOf(after, '-') == 1;
      assert after[1..] == line[3..];
      SplitSidPrefix(line);
      MatchesGroupsIffFields(line[4..], 1, 14);
      assert Split(line[4..], '-') == fields[2..];
    }
  }

  // ---------------------------------------------------------------------
  // Access rules: ^S-\d+.*$
  // ---------------------------------------------------------------------

  /** Matcher for `S-\d+.*` on one whole line. Within a line `.*` takes any
      remainder, so after the first digit the rest of the line is free. */
  predicate MatchesAccessLine(line: string) {
    |line| >= 3 && line[0] == 'S' && line[1] == '-' && IsDigit(line[2])
  }

  /** `=~` with the access pattern: some line of the identity matches. */
  predicate AccessPatternMatches(identity: string) {
    var lines := Lines(identity);
    exists k :: 0 <= k < |lines| && MatchesAccessLine(lines[k])
  }

  /** Reference description of the access pattern, following its parts:
      "S-", a non-empty run of digits ending at some position `k`, and any
      remainder of the line for `.*`. */
  ghost predicate IsAccessSid(line: string) {
    exists k :: 3 <= k <= |line| && line[..2] == "S-" && IsDigits(line[2..k])
  }

  /** The access matcher accepts a line exactly when it fits the pattern's
      parts: only the first digit of `\d+` is ever needed. */
  lemma AccessLineIffSid(line: string)
    ensures MatchesAccessLine(line) <==> IsAccessSid(line)
  {
    if MatchesAccessLine(line) {
      assert line[..2] == "S-" && IsDigits(line[2..3]);
    }
    if IsAccessSid(line) {
      var k :| 3 <= k <= |line| && line[..2] == "S-" && IsDigits(line[2..k]);
      AllDigitsAt(line[2..k]);
      assert line[2..k][0] == line[2];
    }
  }

  /** Every line the audit pattern accepts, the access pattern accepts too;
      so does every identity. */
  lemma AuditPatternImpliesAccessPattern(identity: string)
    ensures AuditPatternMatches(identity) ==> AccessPatternMatches(identity)
  {
    if AuditPatternMatches(identity) {
      var lines := Lines(identity);
      var k :| 0 <= k < |lines| && MatchesAuditLine(lines[k]);
      assert MatchesAccessLine(lines[k]);
    }
  }

  /** Two newline-free lines joined by a newline split back into the two. */
  lemma TwoLines(first: string, second: string)
    requires '\n' !in first && '\n' !in second
    ensures Lines(first + "\n" + second) == [first, second]
  {
    var s := first + "\n" + second;
    IndexOfAfterPrefix(first, '\n', second);
    SplitFirst(s, '\n');
    assert s[..|first|] == first && s[|first| + 1..] == second;
    SingleLine(second);
  }

  /** An identity without line breaks is a single line, and each pattern
      matches it exactly when the pattern's line matcher does. */
  lemma SingleLine(identity: string)
    requires '\n' !in identity
    ensures Lines(identity) == [identity]
    ensures AuditPatternMatches(identity) == MatchesAuditLine(identity)
    ensures AccessPatternMatches(identity) == MatchesAccessLine(identity)
  {
    assert Lines(identity)[0] == identity;
  }
}
