/** The three checks every page name of a group passes before that group's
    `index.js` is generated, and the loop that applies them in list order,
    stopping at the first failure. */
module PageValidation {
  import opened Text
  import opened Results

  /** Which check failed; each one throws an `Error` with a fixed message. */
  datatype ValidationError = EmptyName | IllegalSymbols | NoLatinCapital
  {
    /** The message thrown. It does not mention the offending name. */
    function Message(): (m: string)
      ensures |m| > 0
    {
      match this
      case EmptyName => "Page name is empty"
      case IllegalSymbols => "Page name contains illegal symbols"
      case NoLatinCapital => "Page name should start with a latin capital letter"
    }
  }

  /** `isNotEmpty`: the name is truthy, that is, not "". Its second conjunct
      trims the template literal `$name`, which has no placeholder and is never
      blank, so a blank name such as " " passes this check. */
  predicate IsNotEmpty(name: string)
  {
    name != ""
  }

  /** `consistsOfAllowedSymbols`: `/^[A-Za-z0-9_]*$/`. */
  predicate ConsistsOfAllowedSymbols(name: string)
  {
    AllWordChars(name)
  }

  /** `startsWithLatinCapital`: `/^[A-Z].*$/`, a capital first and then no
      line terminator, which `.` does not match (without the `m` flag, `$`
      matches only at the very end). */
  predicate StartsWithLatinCapital(name: string)
  {
    |name| > 0 && IsUpper(name[0]) && forall k :: 1 <= k < |name| ==> !IsLineTerminator(name[k])
  }

  /** A page name that survives all three checks: a non-empty run of
      `[A-Za-z0-9_]` starting with `A`-`Z`. */
  predicate ValidPageName(name: string)
  {
    |name| > 0 && IsUpper(name[0]) && AllWordChars(name)
  }

  /** The three checks in their order; the first that fails decides the
      error. */
  function CheckName(name: string): (r: Option<ValidationError>)
    ensures r.None? <==> ValidPageName(name)
    ensures r == Some(EmptyName) <==> name == ""
    ensures r == Some(IllegalSymbols) <==> name != "" && !AllWordChars(name)
    ensures r == Some(NoLatinCapital) <==> name != "" && AllWordChars(name) && !IsUpper(name[0])
  {
    if !IsNotEmpty(name) then Some(EmptyName)
    else if !ConsistsOfAllowedSymbols(name) then Some(IllegalSymbols)
    else if !StartsWithLatinCapital(name) then Some(NoLatinCapital)
    else None
  }

  /** Position of the first name that fails, or `|names|` if none does. */
  function FirstInvalidIndex(names: seq<string>): (r: nat)
    ensures r <= |names|
    ensures forall j :: 0 <= j < r ==> ValidPageName(names[j])
    ensures r < |names| ==> !ValidPageName(names[r])
  {
    if names == [] || !ValidPageName(names[0]) then 0
    else 1 + FirstInvalidIndex(names[1..])
  }

  /** `names[i]` is the first name to fail, and fails with `failure`. */
  predicate FailsFirstAt(names: seq<string>, i: int, failure: Option<ValidationError>)
  {
    0 <= i < |names| && CheckName(names[i]) == failure && forall j :: 0 <= j < i ==> ValidPageName(names[j])
  }

  /** The error the whole list raises, if any: that of its first invalid
      name. */
  function FirstInvalid(names: seq<string>): (r: Option<ValidationError>)
    ensures r.None? <==> forall i :: 0 <= i < |names| ==> ValidPageName(names[i])
    ensures r.Some? ==> FailsFirstAt(names, FirstInvalidIndex(names), r)
  {
    var k := FirstInvalidIndex(names);
    if k == |names| then None else CheckName(names[k])
  }

  /** The first invalid position is determined by the names before it and
      itself. */
  lemma {:induction false} FirstInvalidIndexIs(names: seq<string>, i: nat)
    requires i < |names| && !ValidPageName(names[i])
    requires forall j :: 0 <= j < i ==> ValidPageName(names[j])
    ensures FirstInvalidIndex(names) == i
  {
    if i > 0 {
      FirstInvalidIndexIs(names[1..], i - 1);
    }
  }

  /** `assertPageNamesHasValidFormat`: the names in order, each put through
      the three checks in order; the first failure ends the loop with its
      error. */
  method AssertPageNamesHaveValidFormat(pageNames: seq<string>) returns (failure: Option<ValidationError>)
    ensures failure == FirstInvalid(pageNames)
    ensures failure.None? <==> forall i :: 0 <= i < |pageNames| ==> ValidPageName(pageNames[i])
    ensures failure.Some? ==> exists i :: FailsFirstAt(pageNames, i, failure)
  {
    for i := 0 to |pageNames|
      invariant forall j :: 0 <= j < i ==> ValidPageName(pageNames[j])
    {
      var name := pageNames[i];
      if !IsNotEmpty(name) {
        FirstInvalidIndexIs(pageNames, i);
        return Some(EmptyName);
      }
      if !ConsistsOfAllowedSymbols(name) {
        FirstInvalidIndexIs(pageNames, i);
        return Some(IllegalSymbols);
      }
      if !StartsWithLatinCapital(name) {
        FirstInvalidIndexIs(pageNames, i);
        return Some(NoLatinCapital);
      }
    }
    return None;
  }

  /** A blank name is not reported as empty: it gets past `isNotEmpty` and is
      refused for its symbols instead. */
  lemma BlankNameIsIllegalSymbols()
    ensures CheckName(" ") == Some(IllegalSymbols)
  {
    assert !IsWordChar(" "[0]);
  }

  /** A lower-case first letter is the third check's failure. */
  lemma LowerCaseNameNeedsCapital()
    ensures CheckName("about") == Some(NoLatinCapital)
  {
    assert AllWordChars("about") by {
      forall k | 0 <= k < 5 ensures IsWordChar("about"[k]) {
      }
    }
  }
}
