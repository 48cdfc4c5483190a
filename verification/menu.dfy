/** The console menus: the main menu, the project search menu and its
    search-options sub-menu, and one menu per person table. Every menu
    reads its choice with the same validating prompt and dispatches on the
    number; 0 leaves the menu (and, from the main menu, the program). */
module Menu {
  import opened Wrappers
  import opened Text
  import Prompt
  import People

  /** One answer to "Please select an option": a line that is `0+` without
      being exactly "0" is refused, then the line must parse as an `int`
      and lie in [lo, hi]; `None` is a re-prompt. */
  function ValidChoice(line: string, lo: int, hi: int): (r: Option<int>)
    ensures r.Some? ==> lo <= r.value <= hi && ParseInt(line) == r
    ensures IsAllZeros(line) && line != "0" ==> r.None?
    ensures ParseInt(line).None? ==> r.None?
  {
    if IsAllZeros(line) && line != "0" then None
    else match ParseInt(line)
      case None => None
      case Some(v) => if lo <= v <= hi then Some(v) else None
  }

  /** The canonical spelling of every number on the menu is accepted as
      that number. */
  lemma ChoiceComplete(v: int, lo: int, hi: int)
    requires lo <= v <= hi && InInt32(v)
    ensures ValidChoice(IntToString(v), lo, hi) == Some(v)
  {
    ParseIntOfIntToString(v);
    if v > 0 {
      NatToStringSpellsN(v);
      assert IntToString(v)[0] != '0';
    } else if v < 0 {
      assert IntToString(v)[0] == '-';
    }
  }

  /** Only a whole line of zeros is refused for its zeros: "00" is
      re-prompted, while "01" still selects option 1 because `parseInt`
      accepts leading zeros. */
  lemma LeadingZeros()
    ensures ValidChoice("00", 0, 7) == None
    ensures ValidChoice("01", 0, 7) == Some(1)
    ensures ValidChoice("8", 0, 7) == None
  {
    assert IsAllZeros("00");
    assert !IsAllZeros("01") by { assert "01"[1] != '0'; }
    assert DigitsValue("01") == 1 by {
      assert "01"[..1] == "0";
      assert DigitsValue("0") == 0 by { assert "0"[..0] == ""; }
    }
    assert ParseInt("01") == Some(1) by { assert IsDigit("01"[0]) && IsDigit("01"[1]); }
    assert DigitsValue("8") == 8 by { assert "8"[..0] == ""; }
    assert ParseInt("8") == Some(8) by { assert IsDigit("8"[0]); }
  }

  /** The prompt as a function of the line typed. */
  function Chooser(lo: int, hi: int): string -> Option<int> {
    line => ValidChoice(line, lo, hi)
  }

  /** `getValidChoice`: the lines typed until one is accepted; `None` when
      the input ends first. */
  method GetValidChoice(lines: seq<string>, lo: int, hi: int) returns (r: Option<int>, used: nat)
    ensures used <= |lines|
    ensures r.Some? ==> lo <= r.value <= hi && Prompt.FirstAccepted(lines, Chooser(lo, hi), used - 1)
    ensures r.Some? ==> ParseInt(lines[used - 1]) == r
    ensures r.None? ==> forall j | 0 <= j < |lines| :: ValidChoice(lines[j], lo, hi).None?
  {
    r, used := Prompt.ReadUntil(lines, Chooser(lo, hi));
    if r.Some? {
      assert Chooser(lo, hi)(lines[used - 1]) == ValidChoice(lines[used - 1], lo, hi);
    }
  }

  datatype Menu = MainMenu | ProjectSearchMenu | SearchOptionsMenu | PeopleMenu(t: People.Table)

  /** The highest option each menu offers; 0 is always the way out. */
  function MaxChoice(m: Menu): int {
    match m
    case MainMenu => 7
    case ProjectSearchMenu => 4
    case SearchOptionsMenu => 2
    case PeopleMenu(_) => 5
  }

  /** The menu a sub-menu returns to. */
  function Parent(m: Menu): Option<Menu> {
    match m
    case MainMenu => None
    case ProjectSearchMenu => Some(MainMenu)
    case SearchOptionsMenu => Some(ProjectSearchMenu)
    case PeopleMenu(_) => Some(MainMenu)
  }

  /** The operations a menu option starts. */
  datatype Action =
    | AddProject | UpdateProject | DeleteProject
    | ListAllProjects | ListIncompleteProjects | ListPastDeadline
    | SearchByName | SearchByNumber
    | AddPerson(t: People.Table) | UpdatePerson(t: People.Table) | DeletePerson(t: People.Table)
    | SearchPerson(t: People.Table) | ListPeople(t: People.Table)

  datatype Step = Do(a: Action) | Enter(m: Menu) | Leave | Invalid

  /** The `switch` of each menu. */
  function Dispatch(m: Menu, choice: int): (r: Step)
    ensures r.Invalid? <==> !(0 <= choice <= MaxChoice(m))
    ensures r.Leave? <==> choice == 0
    ensures r.Enter? ==> Parent(r.m) == Some(m)
  {
    if choice == 0 then Leave
    else match m
      case MainMenu =>
        if choice == 1 then Do(AddProject)
        else if choice == 2 then Do(UpdateProject)
        else if choice == 3 then Do(DeleteProject)
        else if choice == 4 then Enter(ProjectSearchMenu)
        else if choice == 5 then Enter(PeopleMenu(People.Architect))
        else if choice == 6 then Enter(PeopleMenu(People.Contractor))
        else if choice == 7 then Enter(PeopleMenu(People.Customer))
        else Invalid
      case ProjectSearchMenu =>
        if choice == 1 then Enter(SearchOptionsMenu)
        else if choice == 2 then Do(ListAllProjects)
        else if choice == 3 then Do(ListIncompleteProjects)
        else if choice == 4 then Do(ListPastDeadline)
        else Invalid
      case SearchOptionsMenu =>
        if choice == 1 then Do(SearchByName)
        else if choice == 2 then Do(SearchByNumber)
        else Invalid
      case PeopleMenu(t) =>
        if choice == 1 then Do(AddPerson(t))
        else if choice == 2 then Do(UpdatePerson(t))
        else if choice == 3 then Do(DeletePerson(t))
        else if choice == 4 then Do(SearchPerson(t))
        else if choice == 5 then Do(ListPeople(t))
        else Invalid
  }

  /** Different options of one menu do different things. */
  lemma DispatchInjective(m: Menu, a: int, b: int)
    requires 0 <= a <= MaxChoice(m) && 0 <= b <= MaxChoice(m)
    requires Dispatch(m, a) == Dispatch(m, b)
    ensures a == b
  {
  }

  /** The choices `getValidChoice` hands to a `switch` never reach its
      `default` branch. */
  lemma ValidChoiceNeverInvalid(m: Menu, line: string)
    requires ValidChoice(line, 0, MaxChoice(m)).Some?
    ensures !Dispatch(m, ValidChoice(line, 0, MaxChoice(m)).value).Invalid?
  {
  }

  /** The menus currently open, the main menu at the bottom and each one
      above opened from the one below. */
  predicate WellFormed(stack: seq<Menu>) {
    |stack| >= 1 && stack[0] == MainMenu
    && forall i | 1 <= i < |stack| :: Parent(stack[i]) == Some(stack[i - 1])
  }

  /** How many menus lie below `m` when it is open. */
  function Depth(m: Menu): (d: nat)
    ensures d <= 2
    ensures d == 0 <==> Parent(m).None?
  {
    match m
    case MainMenu => 0
    case ProjectSearchMenu => 1
    case SearchOptionsMenu => 2
    case PeopleMenu(_) => 1
  }

  /** A sub-menu sits one level above the menu it returns to. */
  lemma DepthOfParent(m: Menu)
    requires Parent(m).Some?
    ensures Depth(m) == Depth(Parent(m).value) + 1
  {
  }

  /** The menu at position i of a well-formed stack has i menus below it. */
  lemma {:induction false} DepthAt(stack: seq<Menu>, i: int)
    requires WellFormed(stack) && 0 <= i < |stack|
    ensures Depth(stack[i]) == i
  {
    if i > 0 {
      DepthAt(stack, i - 1);
      DepthOfParent(stack[i]);
    }
  }

  /** Menus nest at most three deep: main, project search, search options. */
  lemma WellFormedDepth(stack: seq<Menu>)
    requires WellFormed(stack)
    ensures |stack| <= 3
  {
    DepthAt(stack, |stack| - 1);
  }

  /** The menu the user is looking at. */
  function Top(stack: seq<Menu>): Menu
    requires |stack| >= 1
  {
    stack[|stack| - 1]
  }

  /** One validated choice on the top menu: an option that opens a menu
      pushes it, 0 pops (and `None` is the program exiting), anything else
      leaves the stack as it is. */
  function Next(stack: seq<Menu>, choice: int): (r: Option<seq<Menu>>)
    requires WellFormed(stack)
    ensures r.Some? ==> WellFormed(r.value)
    ensures r.None? <==> stack == [MainMenu] && choice == 0
    ensures Dispatch(Top(stack), choice).Do? || Dispatch(Top(stack), choice).Invalid? ==> r == Some(stack)
    ensures Dispatch(Top(stack), choice).Enter? ==> r == Some(stack + [Dispatch(Top(stack), choice).m])
    ensures choice == 0 && |stack| > 1 ==> r == Some(stack[..|stack| - 1])
  {
    match Dispatch(stack[|stack| - 1], choice)
    case Enter(m) => Some(stack + [m])
    case Leave =>
      if |stack| == 1 then None else Some(stack[..|stack| - 1])
    case _ => Some(stack)
  }

  /** The actions a run of validated choices starts, in order, and whether
      the program exited; the choices after the exit are never read. */
  function Run(stack: seq<Menu>, choices: seq<int>): (r: (seq<Action>, Option<seq<Menu>>))
    requires WellFormed(stack)
    ensures r.1.Some? ==> WellFormed(r.1.value)
    ensures |r.0| <= |choices|
    decreases |choices|
  {
    if |choices| == 0 then ([], Some(stack))
    else
      var step := Dispatch(Top(stack), choices[0]);
      match Next(stack, choices[0])
      case None => ([], None)
      case Some(s) =>
        var rest := Run(s, choices[1..]);
        ((if step.Do? then [step.a] else []) + rest.0, rest.1)
  }

  /** Leaving a menu returns to the one it was opened from. */
  lemma EnterThenLeave(stack: seq<Menu>, choice: int)
    requires WellFormed(stack) && Dispatch(stack[|stack| - 1], choice).Enter?
    ensures Next(stack, choice).Some?
    ensures Next(Next(stack, choice).value, 0) == Some(stack)
  {
    var s := stack + [Dispatch(stack[|stack| - 1], choice).m];
    assert s[..|s| - 1] == stack;
  }

  /** The actions one choice starts: the action of the option chosen, if
      it is one, and nothing for a menu change or an out-of-range number. */
  lemma RunOne(stack: seq<Menu>, c: int)
    requires WellFormed(stack)
    ensures Run(stack, [c]).0 == (if Dispatch(Top(stack), c).Do? then [Dispatch(Top(stack), c).a] else [])
    ensures Run(stack, [c]).1 == Next(stack, c)
  {
    assert [c][1..] == [];
  }

  /** Running two batches of choices is running the first, then the second
      from wherever the first left off; nothing is read after an exit. */
  lemma {:induction false} RunAppend(stack: seq<Menu>, xs: seq<int>, ys: seq<int>)
    requires WellFormed(stack)
    ensures var first := Run(stack, xs);
            Run(stack, xs + ys)
            == if first.1.None? then first
               else (first.0 + Run(first.1.value, ys).0, Run(first.1.value, ys).1)
    decreases |xs|
  {
    if |xs| == 0 {
      assert xs + ys == ys;
      assert [] + Run(stack, ys).0 == Run(stack, ys).0;
    } else {
      assert (xs + ys)[0] == xs[0];
      assert (xs + ys)[1..] == xs[1..] + ys;
      match Next(stack, xs[0])
      case None =>
      case Some(s) =>
        RunAppend(s, xs[1..], ys);
        var step := Dispatch(Top(stack), xs[0]);
        var here: seq<Action> := if step.Do? then [step.a] else [];
        var tail := Run(s, xs[1..]);
        assert Run(stack, xs) == (here + tail.0, tail.1);
        assert Run(stack, xs + ys) == (here + Run(s, xs[1..] + ys).0, Run(s, xs[1..] + ys).1);
        if tail.1.Some? {
          assert here + (tail.0 + Run(tail.1.value, ys).0) == (here + tail.0) + Run(tail.1.value, ys).0;
        }
    }
  }

  /** The menu open after the choices `cs`, if the program is still
      running. */
  function OpenAfter(stack: seq<Menu>, cs: seq<int>): Option<seq<Menu>>
    requires WellFormed(stack)
  {
    Run(stack, cs).1
  }

  /** Every action started was offered by the menu on top at the moment its
      choice was typed. */
  lemma {:induction false} RunOffers(stack: seq<Menu>, choices: seq<int>, k: int)
    requires WellFormed(stack) && 0 <= k < |Run(stack, choices).0|
    ensures exists j | 0 <= j < |choices| ::
              OpenAfter(stack, choices[..j]).Some?
              && Dispatch(Top(OpenAfter(stack, choices[..j]).value), choices[j]) == Do(Run(stack, choices).0[k])
    decreases |choices|
  {
    var step := Dispatch(Top(stack), choices[0]);
    var s := Next(stack, choices[0]).value;
    var rest := Run(s, choices[1..]);
    assert choices[..0] == [];
    if step.Do? && k == 0 {
      assert Dispatch(Top(OpenAfter(stack, choices[..0]).value), choices[0]) == Do(Run(stack, choices).0[k]);
    } else {
      var k' := if step.Do? then k - 1 else k;
      assert Run(stack, choices).0[k] == rest.0[k'];
      RunOffers(s, choices[1..], k');
      var j :| 0 <= j < |choices[1..]| && OpenAfter(s, choices[1..][..j]).Some?
               && Dispatch(Top(OpenAfter(s, choices[1..][..j]).value), choices[1..][j]) == Do(rest.0[k']);
      assert choices[1..][j] == choices[j + 1];
      assert choices[..j + 1] == [choices[0]] + choices[1..][..j];
      RunAppend(stack, [choices[0]], choices[1..][..j]);
      RunOne(stack, choices[0]);
      assert OpenAfter(stack, choices[..j + 1]) == OpenAfter(s, choices[1..][..j]);
    }
  }

  /** Conversely, an option that names an action, chosen while the program
      runs, starts that action: it is recorded right after the actions
      started before it. */
  lemma RunRecords(stack: seq<Menu>, choices: seq<int>, j: int)
    requires WellFormed(stack) && 0 <= j < |choices| && OpenAfter(stack, choices[..j]).Some?
    requires Dispatch(Top(OpenAfter(stack, choices[..j]).value), choices[j]).Do?
    ensures var before := Run(stack, choices[..j]).0;
            |before| < |Run(stack, choices).0|
            && Run(stack, choices).0[|before|] == Dispatch(Top(OpenAfter(stack, choices[..j]).value), choices[j]).a
  {
    var s := OpenAfter(stack, choices[..j]).value;
    assert choices == choices[..j] + ([choices[j]] + choices[j + 1..]);
    RunAppend(stack, choices[..j], [choices[j]] + choices[j + 1..]);
    RunAppend(s, [choices[j]], choices[j + 1..]);
    RunOne(s, choices[j]);
  }

  /** The program ends only through 0 typed while the main menu alone is
      open. */
  lemma {:induction false} RunExits(stack: seq<Menu>, choices: seq<int>)
    requires WellFormed(stack) && Run(stack, choices).1.None?
    ensures exists j | 0 <= j < |choices| :: OpenAfter(stack, choices[..j]) == Some([MainMenu]) && choices[j] == 0
    decreases |choices|
  {
    var s := Next(stack, choices[0]);
    if s.None? {
      assert choices[..0] == [];
      assert OpenAfter(stack, choices[..0]) == Some([MainMenu]);
    } else {
      RunExits(s.value, choices[1..]);
      var j :| 0 <= j < |choices[1..]| && OpenAfter(s.value, choices[1..][..j]) == Some([MainMenu])
               && choices[1..][j] == 0;
      var prefix := choices[..j + 1];
      assert prefix[0] == choices[0] && prefix[1..] == choices[1..][..j];
      assert OpenAfter(stack, prefix) == OpenAfter(s.value, choices[1..][..j]);
      assert choices[j + 1] == 0;
    }
  }
}
