/**
 * src/domain.rs: `SubscriberName`, a subscriber's display name, and the
 * validation meant to guard it. A name is acceptable when it is not blank,
 * has at most 256 grapheme clusters and contains none of the characters
 * `/ ( ) " < > \ { }`.
 */
module Domain {
  import opened Wrappers

  /** `SubscriberName(String)`. */
  datatype SubscriberName = SubscriberName(value: string)
  {
    /** `inner_ref`: the wrapped text. */
    function InnerRef(): string {
      value
    }
  }

  const MAX_GRAPHEMES: nat := 256

  /** The characters a name may not contain. */
  const FORBIDDEN: seq<char> := ['/', '(', ')', '"', '<', '>', '\\', '{', '}']

  /** The characters with the Unicode White_Space property, which `str::trim` removes. */
  predicate IsWhiteSpace(c: char) {
    var n := c as int;
    || (0x09 <= n <= 0x0D) || n == 0x20 || n == 0x85 || n == 0xA0 || n == 0x1680
    || (0x2000 <= n <= 0x200A) || n == 0x2028 || n == 0x2029 || n == 0x202F || n == 0x205F
    || n == 0x3000
  }

  /** `trim_start`: `s` without its leading white space. */
  function TrimStart(s: string): (r: string)
    ensures |r| <= |s| && r == s[|s| - |r|..]
    ensures r != [] ==> !IsWhiteSpace(r[0])
    ensures forall i :: 0 <= i < |s| - |r| ==> IsWhiteSpace(s[i])
  {
    if s != [] && IsWhiteSpace(s[0]) then TrimStart(s[1..]) else s
  }

  /** `trim_end`: `s` without its trailing white space. */
  function TrimEnd(s: string): (r: string)
    ensures |r| <= |s| && r == s[..|r|]
    ensures r != [] ==> !IsWhiteSpace(r[|r| - 1])
    ensures forall i :: |r| <= i < |s| ==> IsWhiteSpace(s[i])
  {
    if s != [] && IsWhiteSpace(s[|s| - 1]) then TrimEnd(s[..|s| - 1]) else s
  }

  /** `str::trim`. */
  function Trim(s: string): string {
    TrimEnd(TrimStart(s))
  }

  /** A string trims to nothing exactly when every character in it is white space. */
  lemma TrimEmptyIffBlank(s: string)
    ensures Trim(s) == [] <==> forall i :: 0 <= i < |s| ==> IsWhiteSpace(s[i])
  {
  }

  /** `forbidden.iter().any(|c| s.contains(*c))`. */
  function AnyContained(forbidden: seq<char>, s: string): (r: bool)
    ensures r <==> exists i :: 0 <= i < |s| && s[i] in forbidden
  {
    if forbidden == [] then false
    else if forbidden[0] in s then true
    else
      var rest := AnyContained(forbidden[1..], s);
      assert forall i :: 0 <= i < |s| && s[i] in forbidden ==> s[i] == forbidden[0] || s[i] in forbidden[1..];
      rest
  }

  /** Blank: nothing is left once surrounding white space is trimmed. */
  predicate IsEmptyOrWhitespace(s: string) {
    Trim(s) == []
  }

  /** Too long: more than 256 grapheme clusters (`graphemes(true).count()`). */
  predicate IsTooLong(s: string, graphemes: string -> nat) {
    graphemes(s) > MAX_GRAPHEMES
  }

  predicate ContainsForbiddenCharacters(s: string) {
    AnyContained(FORBIDDEN, s)
  }

  /** What the validation sets out to accept. */
  predicate IsValidName(s: string, graphemes: string -> nat) {
    !IsEmptyOrWhitespace(s) && !IsTooLong(s, graphemes) && !ContainsForbiddenCharacters(s)
  }

  /**
   * `SubscriberName::parse` as written: it panics (None) when all three checks
   * pass, and wraps the input otherwise. So it returns exactly for blank,
   * over-long or forbidden-character names, and then with the input
   * unchanged.
   */
  function ParseAsWritten(s: string, graphemes: string -> nat): (r: Option<SubscriberName>)
    ensures r.Some? <==>
      (|| (forall i :: 0 <= i < |s| ==> IsWhiteSpace(s[i]))
       || graphemes(s) > 256
       || (exists i :: 0 <= i < |s| && s[i] in FORBIDDEN))
    ensures r.Some? ==> r.value.InnerRef() == s
  {
    TrimEmptyIffBlank(s);
    var isEmptyOrWhitespace := IsEmptyOrWhitespace(s);
    var isTooLong := IsTooLong(s, graphemes);
    var containsForbiddenCharacters := ContainsForbiddenCharacters(s);
    if !isEmptyOrWhitespace && !isTooLong && !containsForbiddenCharacters then None
    else Some(SubscriberName(s))
  }

  /**
   * `SubscriberName::parse` with the condition the checks evidently intend:
   * it returns the input unchanged exactly when the name is not blank, has
   * at most 256 graphemes and has no forbidden character, and refuses it
   * otherwise.
   */
  function Parse(s: string, graphemes: string -> nat): (r: Option<SubscriberName>)
    ensures r.Some? <==>
      (&& (exists i :: 0 <= i < |s| && !IsWhiteSpace(s[i]))
       && graphemes(s) <= 256
       && (forall i :: 0 <= i < |s| ==> s[i] !in FORBIDDEN))
    ensures r.Some? ==> r.value.InnerRef() == s
  {
    TrimEmptyIffBlank(s);
    if IsValidName(s, graphemes) then Some(SubscriberName(s)) else None
  }

  /** The code as written accepts exactly the names the intended check refuses. */
  lemma AsWrittenIsInverted(s: string, graphemes: string -> nat)
    ensures ParseAsWritten(s, graphemes).Some? <==> Parse(s, graphemes).None?
  {
    TrimEmptyIffBlank(s);
  }

  /** An ordinary name such as "le guin" makes the code as written panic. */
  lemma OrdinaryNamePanics(graphemes: string -> nat)
    requires graphemes("le guin") == 7
    ensures ParseAsWritten("le guin", graphemes).None?
    ensures Parse("le guin", graphemes) == Some(SubscriberName("le guin"))
  {
    var s := "le guin";
    assert !IsWhiteSpace(s[0]);
    assert forall i :: 0 <= i < |s| ==> s[i] !in FORBIDDEN;
  }

  /** The empty name, which the checks exist to reject, is accepted by the code as written. */
  lemma EmptyNameAccepted(graphemes: string -> nat)
    ensures ParseAsWritten("", graphemes) == Some(SubscriberName(""))
    ensures Parse("", graphemes).None?
  {
    TrimEmptyIffBlank("");
  }

  /** The length limit is inclusive: 256 graphemes pass it, 257 do not. */
  lemma LengthLimitBoundary(s: string, graphemes: string -> nat)
    requires exists i :: 0 <= i < |s| && !IsWhiteSpace(s[i])
    requires forall i :: 0 <= i < |s| ==> s[i] !in FORBIDDEN
    ensures graphemes(s) == 256 ==> Parse(s, graphemes).Some?
    ensures graphemes(s) == 257 ==> Parse(s, graphemes).None? && ParseAsWritten(s, graphemes).Some?
  {
    TrimEmptyIffBlank(s);
  }
}
