/**
 * Case-insensitive comparison of the scalar identities of an ACL: the object
 * path (`name`), the `owner` and the `group`.
 *
 * Ruby's String#casecmp folds only the ASCII letters A-Z onto a-z and then
 * compares byte-wise like String#<=>. The three `insync?` methods share one
 * body, `is.casecmp(should.downcase).zero?`, modelled once by
 * `IdentityInSync`.
 */
module CaseFold {
  import opened Ordering

  predicate IsUpperAscii(c: char) {
    'A' <= c <= 'Z'
  }

  /** Maps A-Z onto a-z and leaves every other character alone. */
  function DowncaseChar(c: char): (d: char)
    ensures !IsUpperAscii(d)
    ensures IsUpperAscii(c) ==> 'a' <= d <= 'z' && d as int - c as int == 'a' as int - 'A' as int
    ensures !IsUpperAscii(c) ==> d == c
  {
    if IsUpperAscii(c) then (c as int - 'A' as int + 'a' as int) as char else c
  }

  /** ASCII lower-casing of a whole string, character by character. */
  function Downcase(s: string): (r: string)
    ensures |r| == |s|
    ensures forall i :: 0 <= i < |s| ==> r[i] == DowncaseChar(s[i])
  {
    if s == [] then [] else [DowncaseChar(s[0])] + Downcase(s[1..])
  }

  /** A string holds no ASCII capital. */
  predicate IsLowerCased(s: string) {
    forall i :: 0 <= i < |s| ==> !IsUpperAscii(s[i])
  }

  /** Lower-cased strings are exactly the fixed points of `Downcase`. */
  lemma {:induction false} LowerCasedIffFixedPoint(s: string)
    ensures IsLowerCased(s) <==> Downcase(s) == s
  {
    if IsLowerCased(s) {
      assert forall i :: 0 <= i < |s| ==> Downcase(s)[i] == s[i];
    } else {
      var i :| 0 <= i < |s| && IsUpperAscii(s[i]);
      assert Downcase(s)[i] != s[i];
    }
  }

  /** Ruby's String#casecmp: String#<=> after ASCII lower-casing both sides. */
  function CaseCompare(a: string, b: string): (r: int)
    ensures -1 <= r <= 1
    ensures r == 0 <==> Downcase(a) == Downcase(b)
  {
    StringOrder();
    CompareStrings(Downcase(a), Downcase(b))
  }

  /** `insync?` of `name`, `owner` and `group`: `is.casecmp(should.downcase).zero?`.
      It holds exactly when both sides agree after ASCII lower-casing. */
  function IdentityInSync(current: string, desired: string): (r: bool)
    ensures r <==> Downcase(current) == Downcase(desired)
  {
    var lowered := Downcase(desired);
    LowerCasedIffFixedPoint(lowered);
    CaseCompare(current, lowered) == 0
  }

  /** The `name` parameter's munge, `downcase`: the stored name has no ASCII
      capital and differs from the declared one only in the case of letters. */
  function MungeName(raw: string): (name: string)
    ensures IsLowerCased(name)
    ensures |name| == |raw|
    ensures forall i :: 0 <= i < |raw| ==> name[i] == raw[i] || (IsUpperAscii(raw[i]) && name[i] == DowncaseChar(raw[i]))
  {
    Downcase(raw)
  }

  /** Munging a stored name again changes nothing. */
  lemma MungeNameIdempotent(raw: string)
    ensures MungeName(MungeName(raw)) == MungeName(raw)
  {
    LowerCasedIffFixedPoint(MungeName(raw));
  }

  /** The scalar comparison is reflexive, symmetric and blind to ASCII case
      on either side: re-casing either argument does not change the answer. */
  lemma IdentityInSyncIgnoresCase(current: string, desired: string, current': string, desired': string)
    requires Downcase(current) == Downcase(current') && Downcase(desired) == Downcase(desired')
    ensures IdentityInSync(current, current)
    ensures IdentityInSync(current, desired) == IdentityInSync(desired, current)
    ensures IdentityInSync(current, desired) == IdentityInSync(current', desired')
  {
  }

  /** The desired value is munged before the comparison: comparing against
      the stored name answers as comparing against the declared one. */
  lemma NameInSyncAfterMunge(current: string, raw: string)
    ensures IdentityInSync(current, MungeName(raw)) == IdentityInSync(current, raw)
  {
    MungeNameIdempotent(raw);
  }

  /** A distinguished-name path matches its re-cased form. */
  lemma IdentityInSyncExample()
    ensures IdentityInSync("DC=Foo", "dc=fOO")
    ensures !IdentityInSync("DC=Foo", "DC=Bar")
  {
    assert Downcase("DC=Foo") == "dc=foo";
    assert Downcase("dc=fOO") == "dc=foo";
    assert Downcase("DC=Bar")[3] == 'b';
  }
}
