/** Choosing the two cameras among the detected devices (`main`, "find HLT and
    make it Master", "find TRI and make it Slave"). Devices are identified by
    their model names; the model keeps, for each role, the index of the device
    that the source would open. */
module DeviceSelection {
  import opened Types

  /** Model name of the only Triton that the program accepts. */
  const TritonModel: string := "TRI032S-C"

  /** `s.find(sub) != npos` matches `sub` at position `i`. */
  predicate MatchesAt(s: string, sub: string, i: nat)
  {
    i + |sub| <= |s| && s[i..i + |sub|] == sub
  }

  /** `gcstring::find`: the first position of `sub` in `s`, or `None` for `npos`. */
  function Find(s: string, sub: string): (r: Option<nat>)
    ensures r.Some? ==> MatchesAt(s, sub, r.value)
    ensures r.Some? ==> forall i :: 0 <= i < r.value ==> !MatchesAt(s, sub, i)
    ensures r.None? ==> forall i :: 0 <= i ==> !MatchesAt(s, sub, i)
    decreases |s|
  {
    if |s| < |sub| then None
    else if s[..|sub|] == sub then Some(0)
    else
      ShiftedMatch(s, sub);
      match Find(s[1..], sub)
      case Some(i) => Some(i + 1)
      case None => None
  }

  lemma ShiftedMatch(s: string, sub: string)
    requires |s| >= |sub| && s[..|sub|] != sub
    ensures !MatchesAt(s, sub, 0)
    ensures forall i: nat :: 1 <= i ==> (MatchesAt(s, sub, i) <==> MatchesAt(s[1..], sub, i - 1))
  {
    assert s[0..|sub|] == s[..|sub|];
    forall i: nat | 1 <= i
      ensures MatchesAt(s, sub, i) <==> MatchesAt(s[1..], sub, i - 1)
    {
      if i + |sub| <= |s| {
        assert s[1..][i - 1..i - 1 + |sub|] == s[i..i + |sub|];
      }
    }
  }

  /** `isApplicableDeviceHelios2`: a Helios2 or Helios2+ model name contains "HLT" or "HTP". */
  predicate IsHelios2(name: string)
    ensures IsHelios2(name) <==> (exists i :: MatchesAt(name, "HLT", i)) || (exists i :: MatchesAt(name, "HTP", i))
  {
    Find(name, "HLT").Some? || Find(name, "HTP").Some?
  }

  /** `isApplicableDeviceTriton`: only the exact model name qualifies, and it has no 'H'. */
  predicate IsTriton(name: string)
    ensures IsTriton(name) ==> |name| == 9 && 'H' !in name
  {
    name == TritonModel
  }

  datatype Role = Helios2 | Triton

  predicate Applicable(role: Role, name: string)
  {
    match role
    case Helios2 => IsHelios2(name)
    case Triton => IsTriton(name)
  }

  /** No device can fill both roles, so the two searches never compete for one device. */
  lemma RolesDisjoint(name: string)
    requires IsTriton(name)
    ensures !IsHelios2(name)
  {
    assert 'H' !in TritonModel;
    NoMatchWithoutFirstChar(name, "HLT");
    NoMatchWithoutFirstChar(name, "HTP");
  }

  lemma NoMatchWithoutFirstChar(s: string, sub: string)
    requires |sub| > 0 && sub[0] !in s
    ensures Find(s, sub).None?
  {
    var r := Find(s, sub);
    if r.Some? {
      assert false;
    }
  }

  /** The number of devices among `names` that can fill `role`. */
  function Count(names: seq<string>, role: Role): (n: nat)
    ensures n <= |names|
  {
    if names == [] then 0
    else Count(names[..|names| - 1], role) + (if Applicable(role, names[|names| - 1]) then 1 else 0)
  }

  /** The index of the first device among `names` that can fill `role`. */
  function First(names: seq<string>, role: Role): (r: Option<nat>)
    ensures r.Some? ==> r.value < |names| && Applicable(role, names[r.value])
    ensures r.Some? ==> forall i :: 0 <= i < r.value ==> !Applicable(role, names[i])
    ensures r.None? <==> forall i :: 0 <= i < |names| ==> !Applicable(role, names[i])
  {
    if names == [] then None
    else
      var init := names[..|names| - 1];
      assert forall i :: 0 <= i < |init| ==> init[i] == names[i];
      var prefix := First(init, role);
      if prefix.Some? then prefix
      else if Applicable(role, names[|names| - 1]) then Some(|names| - 1)
      else None
  }

  /** No device is counted exactly when no device can fill the role. */
  lemma {:induction false} CountZeroIff(names: seq<string>, role: Role)
    ensures Count(names, role) == 0 <==> forall i :: 0 <= i < |names| ==> !Applicable(role, names[i])
  {
    if names != [] {
      var init := names[..|names| - 1];
      CountZeroIff(init, role);
      assert forall i :: 0 <= i < |init| ==> init[i] == names[i];
    }
  }

  /** Indices of the devices that become the Helios (PTP master) and the Triton (PTP slave). */
  datatype Selection = Selection(helios: nat, triton: nat)

  /** The ways `main` stops before streaming: an empty device list returns early,
      the other four are the `std::logic_error`s it throws. */
  datatype SelectionError =
    | NoCameraConnected
    | TooManyHelios2
    | TooManyTriton
    | NoApplicableTriton
    | NoApplicableHelios2

  /** What the device search yields, stated by counting: the Helios check comes
      first, then the Triton check, then the missing-Triton and missing-Helios
      checks, in the order the source performs them. */
  function SelectionOutcome(names: seq<string>): (r: Result<Selection, SelectionError>)
  {
    if names == [] then Failure(NoCameraConnected)
    else if Count(names, Helios2) > 1 then Failure(TooManyHelios2)
    else if Count(names, Triton) > 1 then Failure(TooManyTriton)
    else if First(names, Triton).None? then Failure(NoApplicableTriton)
    else if First(names, Helios2).None? then Failure(NoApplicableHelios2)
    else Success(Selection(First(names, Helios2).value, First(names, Triton).value))
  }

  /** One of the two search loops of `main`: the first applicable device is
      taken, and a second one stops the search (where the source throws). */
  method SearchRole(names: seq<string>, role: Role) returns (found: Option<nat>, tooMany: bool)
    ensures tooMany <==> Count(names, role) > 1
    ensures !tooMany ==> found == First(names, role)
  {
    found := None;
    for i := 0 to |names|
      invariant found == First(names[..i], role)
      invariant Count(names[..i], role) == if found.Some? then 1 else 0
    {
      PrefixStep(names, i, role);
      if found.None? && Applicable(role, names[i]) {
        found := Some(i);
      } else if Applicable(role, names[i]) {
        CountGrows(names, i + 1, role);
        return found, true;
      }
    }
    assert names[..|names|] == names;
    tooMany := false;
  }

  /** The device search of `main`: an empty list ends the program early, then the
      Helios search, then the Triton search, then the two missing-device checks. */
  method SelectDevices(names: seq<string>) returns (r: Result<Selection, SelectionError>)
    ensures r == SelectionOutcome(names)
  {
    if |names| == 0 {
      return Failure(NoCameraConnected);
    }
    var helios, tooManyHelios := SearchRole(names, Helios2);
    if tooManyHelios {
      return Failure(TooManyHelios2);
    }
    var triton, tooManyTriton := SearchRole(names, Triton);
    if tooManyTriton {
      return Failure(TooManyTriton);
    }
    if triton.None? {
      return Failure(NoApplicableTriton);
    }
    if helios.None? {
      return Failure(NoApplicableHelios2);
    }
    return Success(Selection(helios.value, triton.value));
  }

  /** Extending a prefix by one device updates the count and the first match as the loop body does. */
  lemma PrefixStep(names: seq<string>, i: nat, role: Role)
    requires i < |names|
    ensures Count(names[..i + 1], role) == Count(names[..i], role) + (if Applicable(role, names[i]) then 1 else 0)
    ensures First(names[..i + 1], role) ==
              if First(names[..i], role).Some? then First(names[..i], role)
              else if Applicable(role, names[i]) then Some(i) else None
  {
    assert names[..i + 1][..i] == names[..i];
  }

  /** Counting over a prefix never exceeds counting over the whole list. */
  lemma {:induction false} CountGrows(names: seq<string>, k: nat, role: Role)
    requires k <= |names|
    ensures Count(names[..k], role) <= Count(names, role)
    decreases |names| - k
  {
    if k < |names| {
      PrefixStep(names, k, role);
      CountGrows(names, k + 1, role);
    } else {
      assert names[..k] == names;
    }
  }

  /** Two applicable devices at different positions make the count at least two. */
  lemma CountTwo(names: seq<string>, i: nat, j: nat, role: Role)
    requires i < j < |names|
    requires Applicable(role, names[i]) && Applicable(role, names[j])
    ensures Count(names, role) >= 2
  {
    assert names[..j][i] == names[i];
    CountZeroIff(names[..j], role);
    PrefixStep(names, j, role);
    CountGrows(names, j + 1, role);
  }

  /** On success the chosen devices are the first applicable ones and the only
      applicable ones: every other detected device fits neither role's test. */
  lemma SelectionPicksFirstAndOnly(names: seq<string>)
    requires SelectionOutcome(names).Success?
    ensures var sel := SelectionOutcome(names).value;
            sel.helios < |names| && IsHelios2(names[sel.helios]) &&
            sel.triton < |names| && IsTriton(names[sel.triton]) &&
            (forall j :: 0 <= j < |names| && j != sel.helios ==> !IsHelios2(names[j])) &&
            (forall j :: 0 <= j < |names| && j != sel.triton ==> !IsTriton(names[j]))
  {
    var sel := SelectionOutcome(names).value;
    forall j | 0 <= j < |names| && j != sel.helios
      ensures !IsHelios2(names[j])
    {
      if IsHelios2(names[j]) {
        if j > sel.helios {
          CountTwo(names, sel.helios, j, Helios2);
        }
        assert false;
      }
    }
    forall j | 0 <= j < |names| && j != sel.triton
      ensures !IsTriton(names[j])
    {
      if IsTriton(names[j]) {
        if j > sel.triton {
          CountTwo(names, sel.triton, j, Triton);
        }
        assert false;
      }
    }
  }

  /** A second Helios anywhere in the list aborts with "too many Helios2 devices". */
  lemma SecondHeliosFails(names: seq<string>, i: nat, j: nat)
    requires i < j < |names| && IsHelios2(names[i]) && IsHelios2(names[j])
    ensures SelectionOutcome(names) == Failure(TooManyHelios2)
  {
    CountTwo(names, i, j, Helios2);
  }

  /** A second Triton aborts with "too many Triton devices", unless the Helios
      search has already aborted. */
  lemma SecondTritonFails(names: seq<string>, i: nat, j: nat)
    requires i < j < |names| && IsTriton(names[i]) && IsTriton(names[j])
    requires Count(names, Helios2) <= 1
    ensures SelectionOutcome(names) == Failure(TooManyTriton)
  {
    CountTwo(names, i, j, Triton);
  }

  /** With devices detected but neither camera among them, the missing Triton is
      the error reported. */
  lemma MissingTritonReportedFirst(names: seq<string>)
    requires names != []
    requires forall j :: 0 <= j < |names| ==> !IsHelios2(names[j]) && !IsTriton(names[j])
    ensures SelectionOutcome(names) == Failure(NoApplicableTriton)
  {
    CountZeroIff(names, Helios2);
    CountZeroIff(names, Triton);
  }

  /** The search succeeds exactly when one Helios and one Triton are detected. */
  lemma SelectionSucceedsIff(names: seq<string>)
    ensures SelectionOutcome(names).Success? <==> Count(names, Helios2) == 1 && Count(names, Triton) == 1
  {
    CountZeroIff(names, Helios2);
    CountZeroIff(names, Triton);
  }
}
