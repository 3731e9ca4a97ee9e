/**
 * The effect name table: display names derived from the device's effect
 * enumeration, in ordinal order, and the index lookup that turns a name
 * back into an ordinal. Case mapping covers ASCII letters only.
 */
module Effects {
  import opened Basics

  function LowerChar(c: char): char {
    if 'A' <= c <= 'Z' then (c as int + 32) as char else c
  }

  function UpperChar(c: char): char {
    if 'a' <= c <= 'z' then (c as int - 32) as char else c
  }

  predicate IsUpperLetter(c: char) { 'A' <= c <= 'Z' }
  predicate IsLowerLetter(c: char) { 'a' <= c <= 'z' }

  /** str.lower(): every letter mapped to lower case. */
  function Lower(s: string): (r: string)
    ensures |r| == |s|
    ensures forall i :: 0 <= i < |s| ==> r[i] == LowerChar(s[i])
  {
    if s == [] then [] else [LowerChar(s[0])] + Lower(s[1..])
  }

  /** str.capitalize(): first character upper case, the rest lower case. */
  function Capitalize(s: string): (r: string)
    ensures |r| == |s|
    ensures s != [] ==> r[0] == UpperChar(s[0])
    ensures forall i :: 0 < i < |s| ==> r[i] == LowerChar(s[i])
  {
    if s == [] then [] else [UpperChar(s[0])] + Lower(s[1..])
  }

  /** The display name of an enumeration member: name.lower().capitalize(). */
  function DisplayName(member: string): (name: string)
    ensures |name| == |member|
    ensures member != [] ==> name[0] == UpperChar(LowerChar(member[0]))
    ensures forall i :: 0 < i < |member| ==> name[i] == LowerChar(member[i])
  {
    Capitalize(Lower(member))
  }

  /** A display name starts with no lower-case letter and has no upper-case letter after it. */
  lemma DisplayNameShape(member: string)
    ensures |DisplayName(member)| == |member|
    ensures member != [] ==> !IsLowerLetter(DisplayName(member)[0])
    ensures forall i :: 0 < i < |member| ==> !IsUpperLetter(DisplayName(member)[i])
  {
  }

  /** The lower() before capitalize() makes no difference. */
  lemma DisplayNameIgnoresLower(member: string)
    ensures DisplayName(member) == Capitalize(member)
  {
  }

  /** Display names are fixed points: a display name displays as itself. */
  lemma DisplayNameIdempotent(member: string)
    ensures DisplayName(DisplayName(member)) == DisplayName(member)
  {
  }

  lemma UpperCaseMemberName()
    ensures DisplayName("RAINBOW") == "Rainbow"
  {
  }

  /** `effects` lists the display name of every enumeration member, in ordinal order. */
  ghost predicate IsEffectTable(members: seq<string>, effects: seq<string>) {
    |effects| == |members| &&
    forall i :: 0 <= i < |members| ==> effects[i] == DisplayName(members[i])
  }

  predicate DistinctNames(names: seq<string>) {
    forall i, j :: 0 <= i < j < |names| ==> names[i] != names[j]
  }

  /** The module-level loop that builds the table once, appending one name per member. */
  method BuildEffects(members: seq<string>) returns (effects: seq<string>)
    ensures |effects| == |members|
    ensures forall i :: 0 <= i < |members| ==> effects[i] == DisplayName(members[i])
  {
    effects := [];
    for k := 0 to |members|
      invariant |effects| == k
      invariant forall i :: 0 <= i < k ==> effects[i] == DisplayName(members[i])
    {
      effects := effects + [DisplayName(members[k])];
    }
  }

  /** list.index(): the first position holding `name`, or None where Python raises ValueError. */
  function IndexOf(names: seq<string>, name: string): (r: Option<nat>)
    ensures r.None? <==> name !in names
    ensures r.Some? ==> r.value < |names| && names[r.value] == name
    ensures r.Some? ==> forall j :: 0 <= j < r.value ==> names[j] != name
  {
    if names == [] then None
    else if names[0] == name then Some(0)
    else match IndexOf(names[1..], name)
      case None => None
      case Some(i) => Some(i + 1)
  }

  /**
   * Looking up a member's display name recovers that member's ordinal,
   * provided no two members share a display name.
   */
  lemma LookupRecoversOrdinal(members: seq<string>, effects: seq<string>, k: nat)
    requires IsEffectTable(members, effects) && DistinctNames(effects)
    requires k < |members|
    ensures IndexOf(effects, DisplayName(members[k])) == Some(k)
  {
  }

  /**
   * Without distinct display names the lookup may return an earlier ordinal:
   * members FIRE and Fire both display as "Fire".
   */
  lemma SharedDisplayNameLosesOrdinal()
    ensures IndexOf([DisplayName("FIRE"), DisplayName("Fire")], DisplayName("Fire")) == Some(0)
  {
  }
}
