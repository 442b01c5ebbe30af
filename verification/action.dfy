/** Action: what the user asked the program to do, named on the command line. */
module Actions {
  import opened Wrappers
  import opened JavaText

  datatype Action = Report | Watch | ClearTroubleCodes

  /** name(): the constant's identifier. */
  function Name(a: Action): string {
    match a
    case Report => "REPORT"
    case Watch => "WATCH"
    case ClearTroubleCodes => "CLEAR_TROUBLE_CODES"
  }

  /** Action.values(), in declaration order. */
  const Values: seq<Action> := [Report, Watch, ClearTroubleCodes]

  /** The first of `actions` whose name equals `str` ignoring case. */
  function FirstNamed(actions: seq<Action>, str: Option<string>): (r: Option<Action>)
    ensures r.Some? ==> r.value in actions && EqualsIgnoreCase(Name(r.value), str)
    ensures r.None? <==> forall i :: 0 <= i < |actions| ==> !EqualsIgnoreCase(Name(actions[i]), str)
  {
    if |actions| == 0 then None
    else if EqualsIgnoreCase(Name(actions[0]), str) then Some(actions[0])
    else
      assert forall i :: 1 <= i < |actions| ==> actions[i] == actions[1..][i - 1];
      FirstNamed(actions[1..], str)
  }

  /** parse: the action whose name matches ignoring case; no match (null included) is an error. */
  function Parse(str: Option<string>): (r: Result<Action>)
    ensures r.Ok? ==> EqualsIgnoreCase(Name(r.value), str)
    ensures r.Err? ==> r.error == InvalidAction
  {
    match FirstNamed(Values, str)
    case None => Err(InvalidAction)
    case Some(a) => Ok(a)
  }

  /** The names have different lengths, so no text matches two of them. */
  lemma NamesDistinct(a: Action, b: Action, str: Option<string>)
    requires EqualsIgnoreCase(Name(a), str) && EqualsIgnoreCase(Name(b), str)
    ensures a == b
  {
  }

  lemma InValues(a: Action)
    ensures a in Values
  {
    match a
    case Report => assert Values[0] == a;
    case Watch => assert Values[1] == a;
    case ClearTroubleCodes => assert Values[2] == a;
  }

  /** parse returns a exactly when the text is a's name up to case. */
  lemma ParseIff(str: Option<string>, a: Action)
    ensures Parse(str) == Ok(a) <==> EqualsIgnoreCase(Name(a), str)
  {
    if EqualsIgnoreCase(Name(a), str) {
      InValues(a);
      var r := FirstNamed(Values, str);
      assert r.Some? by {
        var i :| 0 <= i < |Values| && Values[i] == a;
      }
      NamesDistinct(r.value, a, str);
    }
  }

  /** parse(a.name()) == a for every action. */
  lemma ParseRoundTrip(a: Action)
    ensures Parse(Some(Name(a))) == Ok(a)
  {
    ParseIff(Some(Name(a)), a);
  }

  /** Case is ignored: "report" gives Report. */
  lemma ParseLowerCase()
    ensures Parse(Some("report")) == Ok(Report)
  {
    assert EqualsIgnoreCase(Name(Report), Some("report"));
    ParseIff(Some("report"), Report);
  }

  /** A null argument matches nothing, so it is an invalid action; so is any text no name matches. */
  lemma ParseRejects(str: Option<string>)
    ensures Parse(None) == Err(InvalidAction)
    ensures (forall a: Action :: !EqualsIgnoreCase(Name(a), str)) ==> Parse(str) == Err(InvalidAction)
  {
  }
}
