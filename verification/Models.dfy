/** Which requested models an account's model keys accept. */
module Models {
  import opened Wrappers
  import Ascii

  const KNOWN_FAMILIES: seq<string> := ["opus", "sonnet", "haiku", "fable"]

  predicate Contains(s: string, part: string) {
    part <= s || (s != "" && Contains(s[1..], part))
  }

  function FirstFamily(families: seq<string>, normalized: string): Option<string> {
    if families == [] then None
    else if Contains(normalized, families[0]) then Some(families[0])
    else FirstFamily(families[1..], normalized)
  }

  function Family(model: string): Option<string> {
    FirstFamily(KNOWN_FAMILIES, Ascii.Lowercase(model))
  }

  predicate Accepted(keys: set<string>, requested: string) {
    || keys == {}
    || requested in keys
    || "default" in keys
    || (Family(requested).Some? && Family(requested).value in keys)
  }

  // --- What that means -----------------------------------------------------------------------------

  ghost predicate OccursAt(s: string, part: string, k: nat) {
    k + |part| <= |s| && s[k..k + |part|] == part
  }

  ghost predicate Occurs(s: string, part: string) {
    exists k: nat :: OccursAt(s, part, k)
  }

  lemma OccursLater(s: string, part: string, k: nat)
    requires s != ""
    ensures OccursAt(s, part, k + 1) <==> OccursAt(s[1..], part, k)
  {
    if k + 1 + |part| <= |s| {
      assert s[k + 1..k + 1 + |part|] == s[1..][k..k + |part|];
    }
  }

  lemma OccursFirst(s: string, part: string)
    ensures OccursAt(s, part, 0) <==> part <= s
  {
  }

  lemma {:induction false} ContainsMeans(s: string, part: string)
    ensures Contains(s, part) <==> Occurs(s, part)
  {
    hide OccursAt;
    OccursFirst(s, part);
    if s != "" {
      ContainsMeans(s[1..], part);
      if k: nat :| OccursAt(s[1..], part, k) {
        OccursLater(s, part, k);
      }
      if k: nat :| OccursAt(s, part, k) && k > 0 {
        OccursLater(s, part, k - 1);
      }
    } else if k: nat :| OccursAt(s, part, k) {
      NothingIn(part, k);
    }
  }

  lemma NothingIn(part: string, k: nat)
    requires OccursAt("", part, k)
    ensures part <= ""
  {
  }

  /** `family` is the first of the four known names that occurs in the lower-cased model. */
  ghost predicate FirstKnown(model: string, family: string) {
    var s := Ascii.Lowercase(model);
    || (family == "opus" && Occurs(s, "opus"))
    || (family == "sonnet" && Occurs(s, "sonnet") && !Occurs(s, "opus"))
    || (family == "haiku" && Occurs(s, "haiku") && !Occurs(s, "opus") && !Occurs(s, "sonnet"))
    || (family == "fable" && Occurs(s, "fable") && !Occurs(s, "opus") && !Occurs(s, "sonnet") && !Occurs(s, "haiku"))
  }

  lemma FamilyMeans(model: string)
    ensures forall family :: Family(model) == Some(family) <==> FirstKnown(model, family)
  {
    hide Contains, Occurs;
    var s := Ascii.Lowercase(model);
    ContainsMeans(s, "opus");
    ContainsMeans(s, "sonnet");
    ContainsMeans(s, "haiku");
    ContainsMeans(s, "fable");
    var k := KNOWN_FAMILIES;
    assert k[1..] == ["sonnet", "haiku", "fable"] && k[1..][1..] == ["haiku", "fable"];
    assert k[1..][1..][1..] == ["fable"] && k[1..][1..][1..][1..] == [];
    assert FirstFamily([], s) == None;
    assert FirstFamily(["fable"], s) == if Contains(s, "fable") then Some("fable") else None;
    assert FirstFamily(["haiku", "fable"], s)
        == if Contains(s, "haiku") then Some("haiku") else FirstFamily(["fable"], s);
    assert FirstFamily(["sonnet", "haiku", "fable"], s)
        == if Contains(s, "sonnet") then Some("sonnet") else FirstFamily(["haiku", "fable"], s);
  }
}
