/**
 * The power-profile buttons of the panel: the labels built at start-up from
 * the profile `powerprofilesctl get` reports, and how a click on a button
 * rewrites all the labels once `powerprofilesctl set` has succeeded.
 */
module PowerProfile {
  import opened Options
  import opened PyStr

  /** The marker that follows the name of the active profile on its button. */
  const Mark: string := " ✅"

  /** The profiles offered, in button order. */
  const Profiles: seq<string> := ["balanced", "power-saver", "performance"]

  /**
   * `get_active_power_profile`: `output` is what `powerprofilesctl get` wrote
   * to standard output, or None when it exited with a non-zero status.
   */
  function ActiveProfile(output: Option<string>): (active: Option<string>)
    ensures active.Some? <==> output.Some?
    ensures active.Some? ==> exists i, j :: TrimmedSlice(output.value, i, j, active.value)
    ensures active.Some? ==> Strip(active.value) == active.value
  {
    match output
    case None => None
    case Some(text) => StripIdempotent(text); Some(Strip(text))
  }

  /** The label a profile's button is created with. */
  function InitialLabel(profile: string, active: Option<string>): (text: string) {
    if active == Some(profile) then Capitalize(profile) + Mark else Capitalize(profile)
  }

  /** The labels of the three buttons at start-up, in button order. */
  function InitialLabels(active: Option<string>): (labels: seq<string>) {
    seq(|Profiles|, i requires 0 <= i < |Profiles| => InitialLabel(Profiles[i], active))
  }

  /** The new label of one button once the profile has been set to `profile`. */
  function Relabel(profile: string, current: string): (text: string) {
    var name := Capitalize(profile);
    if StartsWith(current, name) then name + Mark else RemoveAll(current, Mark)
  }

  /** The new labels of all buttons once the profile has been set to `profile`. */
  function RelabelAll(profile: string, labels: seq<string>): (relabelled: seq<string>) {
    seq(|labels|, i requires 0 <= i < |labels| => Relabel(profile, labels[i]))
  }

  predicate IsMarked(text: string) {
    EndsWith(text, Mark)
  }

  /** Button `i` shows the capitalized name of profile `i`, marked or not. */
  predicate ProfileLabels(labels: seq<string>) {
    |labels| == |Profiles| &&
    forall i :: 0 <= i < |Profiles| ==>
      labels[i] == Capitalize(Profiles[i]) || labels[i] == Capitalize(Profiles[i]) + Mark
  }

  // ---------------------------------------------------------------------------
  // Facts about the three profile names

  /** `capitalize()` of a lower-case ASCII word upper-cases its first letter only. */
  lemma {:induction false} CapitalizeLowerWord(w: string, first: char)
    requires w != [] && 'a' <= w[0] <= 'z' && first == UpperChar(w[0])
    requires forall i :: 1 <= i < |w| ==> !('A' <= w[i] <= 'Z')
    ensures Capitalize(w) == [first] + w[1..]
  {
    LowerOfLowerCase(w[1..]);
  }

  lemma CapitalizedBalanced()
    ensures Capitalize("balanced") == "Balanced"
  {
    CapitalizeLowerWord("balanced", 'B');
  }

  lemma CapitalizedPowerSaver()
    ensures Capitalize("power-saver") == "Power-saver"
  {
    CapitalizeLowerWord("power-saver", 'P');
  }

  lemma CapitalizedPerformance()
    ensures Capitalize("performance") == "Performance"
  {
    CapitalizeLowerWord("performance", 'P');
  }

  /** The names the three buttons show. */
  lemma CapitalizedProfiles()
    ensures Capitalize(Profiles[0]) == "Balanced"
    ensures Capitalize(Profiles[1]) == "Power-saver"
    ensures Capitalize(Profiles[2]) == "Performance"
  {
    CapitalizedBalanced();
    CapitalizedPowerSaver();
    CapitalizedPerformance();
  }

  /** No capitalized profile name, marked or not, starts with another one. */
  lemma {:induction false} ProfileNamesPrefixFree(i: nat, j: nat)
    requires i < |Profiles| && j < |Profiles| && i != j
    ensures !StartsWith(Capitalize(Profiles[i]), Capitalize(Profiles[j]))
    ensures !StartsWith(Capitalize(Profiles[i]) + Mark, Capitalize(Profiles[j]))
  {
    CapitalizedProfiles();
    var a, b := Capitalize(Profiles[i]), Capitalize(Profiles[j]);
    assert a[0] != b[0] || a[1] != b[1];
    if |b| <= |a| {
      assert (a + Mark)[..|b|] == a[..|b|];
    }
  }

  /** A capitalized profile name holds no mark and does not end with one. */
  lemma {:induction false} ProfileNameUnmarked(i: nat)
    requires i < |Profiles|
    ensures !Contains(Capitalize(Profiles[i]), Mark)
    ensures !IsMarked(Capitalize(Profiles[i]))
  {
    CapitalizedProfiles();
    if i == 0 {
      UnmarkedName("Balanced");
    } else if i == 1 {
      UnmarkedName("Power-saver");
    } else {
      UnmarkedName("Performance");
    }
  }

  /** A name without a space neither contains nor ends with the mark. */
  lemma UnmarkedName(name: string)
    requires ' ' !in name
    ensures !Contains(name, Mark)
    ensures !IsMarked(name)
  {
    NoFirstCharNoOccurrence(name, Mark);
  }

  /** `powerprofilesctl get` ends its answer with a newline, which the query strips. */
  lemma {:induction false} ActiveProfileOfOutput(i: nat)
    requires i < |Profiles|
    ensures ActiveProfile(Some(Profiles[i] + "\n")) == Some(Profiles[i])
  {
    var p := Profiles[i];
    StripPadded([], p, "\n");
    assert [] + p + "\n" == p + "\n";
  }

  // ---------------------------------------------------------------------------
  // Start-up labels

  /**
   * At start-up a button carries the mark exactly when its profile is the
   * active one; when the query failed no button is marked.
   */
  lemma {:induction false} InitialMarks(active: Option<string>, i: nat)
    requires i < |Profiles|
    ensures IsMarked(InitialLabels(active)[i]) <==> active == Some(Profiles[i])
    ensures active.None? ==> !IsMarked(InitialLabels(active)[i])
  {
    ProfileNameUnmarked(i);
  }

  /** At start-up at most one button is marked. */
  lemma {:induction false} InitialAtMostOneMarked(active: Option<string>, i: nat, j: nat)
    requires i < |Profiles| && j < |Profiles|
    requires IsMarked(InitialLabels(active)[i]) && IsMarked(InitialLabels(active)[j])
    ensures i == j
  {
    InitialMarks(active, i);
    InitialMarks(active, j);
  }

  lemma InitialLabelsWellFormed(active: Option<string>)
    ensures ProfileLabels(InitialLabels(active))
  {
  }

  // ---------------------------------------------------------------------------
  // Reconciliation after a successful change

  /**
   * On labels of the start-up shape, setting one of the three profiles leaves
   * exactly the labels the panel would have started with had that profile
   * been the active one.
   */
  lemma {:induction false} RelabelProfileLabels(k: nat, labels: seq<string>)
    requires k < |Profiles|
    requires ProfileLabels(labels)
    ensures RelabelAll(Profiles[k], labels) == InitialLabels(Some(Profiles[k]))
  {
    var q := Profiles[k];
    forall i | 0 <= i < |Profiles|
      ensures Relabel(q, labels[i]) == InitialLabel(Profiles[i], Some(q))
    {
      var name := Capitalize(Profiles[i]);
      if i == k {
        assert StartsWith(labels[i], name) by {
          assert (name + Mark)[..|name|] == name;
        }
      } else {
        ProfileNamesPrefixFree(i, k);
        ProfileNameUnmarked(i);
        if labels[i] == name + Mark {
          RemoveAllAppended(name, Mark);
        }
      }
    }
  }

  /**
   * After a successful change to one of the three profiles, exactly one button
   * is marked, and it is the chosen profile's.
   */
  lemma {:induction false} ChangeMarksExactlyOne(k: nat, labels: seq<string>, i: nat)
    requires k < |Profiles| && i < |Profiles|
    requires ProfileLabels(labels)
    ensures IsMarked(RelabelAll(Profiles[k], labels)[i]) <==> i == k
  {
    RelabelProfileLabels(k, labels);
    InitialMarks(Some(Profiles[k]), i);
  }

  /** Setting the same profile twice leaves the labels setting it once does. */
  lemma {:induction false} RelabelIdempotent(k: nat, labels: seq<string>)
    requires k < |Profiles|
    requires ProfileLabels(labels)
    ensures RelabelAll(Profiles[k], RelabelAll(Profiles[k], labels)) == RelabelAll(Profiles[k], labels)
  {
    RelabelProfileLabels(k, labels);
    InitialLabelsWellFormed(Some(Profiles[k]));
    RelabelProfileLabels(k, InitialLabels(Some(Profiles[k])));
  }

  // ---------------------------------------------------------------------------
  // The buttons

  /** The `buttons` list shared by the click handlers: one label per button. */
  class ProfileButtons {
    var labels: seq<string>

    ghost predicate Valid()
      reads this
    {
      ProfileLabels(labels)
    }

    /** One button per profile, in order, marked when it is the active profile. */
    constructor (active: Option<string>)
      ensures labels == InitialLabels(active)
      ensures Valid()
    {
      var buttons: seq<string> := [];
      for k := 0 to |Profiles|
        invariant |buttons| == k
        invariant forall i :: 0 <= i < k ==> buttons[i] == InitialLabel(Profiles[i], active)
      {
        var profile := Profiles[k];
        var text := if active == Some(profile) then Capitalize(profile) + Mark else Capitalize(profile);
        buttons := buttons + [text];
      }
      labels := buttons;
      InitialLabelsWellFormed(active);
    }

    /**
     * `change_power_profile`: `setSucceeded` is whether `powerprofilesctl set`
     * exited with status zero. On failure no label changes.
     */
    method ChangePowerProfile(profile: string, setSucceeded: bool)
      modifies this
      ensures |labels| == old(|labels|)
      ensures !setSucceeded ==> labels == old(labels)
      ensures setSucceeded ==> labels == RelabelAll(profile, old(labels))
      ensures old(Valid()) && profile in Profiles ==> Valid()
      ensures old(Valid()) && profile in Profiles && setSucceeded ==> labels == InitialLabels(Some(profile))
    {
      if !setSucceeded {
        return;
      }
      ghost var before := labels;
      for i := 0 to |labels|
        invariant |labels| == |before|
        invariant forall j :: 0 <= j < i ==> labels[j] == Relabel(profile, before[j])
        invariant forall j :: i <= j < |labels| ==> labels[j] == before[j]
      {
        var name := Capitalize(profile);
        if StartsWith(labels[i], name) {
          labels := labels[i := name + Mark];
        } else {
          labels := labels[i := RemoveAll(labels[i], Mark)];
        }
      }
      if ProfileLabels(before) && profile in Profiles {
        var k :| 0 <= k < |Profiles| && Profiles[k] == profile;
        RelabelProfileLabels(k, before);
        InitialLabelsWellFormed(Some(profile));
      }
    }
  }
}
