/**
 * The key-handling state machine of the picker (`TUI`): a mode, the search
 * input, the selected row and the host table. Drawing and the terminal are
 * not modelled.
 *
 * `Step` states what one key event does to that state and `Drive` what a
 * run over a sequence of keys returns; the methods of class `TUI` update the
 * fields in place and are proved to agree with them.
 */
module Tui {
  import opened Wrappers
  import opened Ascii
  import opened HostMaps

  /** The key events the picker reacts to; any other key is `Other`. */
  datatype Key = Char(ch: char) | Ctrl(ch: char) | Up | Down | Esc | Backspace | Other

  datatype Mode = Search | Nav | Quit | Launch(host: string)

  /** The one error `update` reports: Enter with no host at the selected row. */
  datatype TuiError = CantFindHost

  /** The state `update` works on. */
  datatype Ui = Ui(mode: Mode, input: string, selected: nat, hosts: HostMap)

  /** The keys that move the selection up or down. */
  predicate IsMove(k: Key) {
    k == Up || k == Ctrl('p') || k == Down || k == Ctrl('n')
  }

  /** Moving needs a host to move to (`hosts.len() - 1` would underflow). */
  predicate CanHandle(u: Ui, event: Option<Key>) {
    event.Some? && IsMove(event.value) ==> |u.hosts| > 0
  }

  /** The selection is a row of the table, or 0 when the table is empty. */
  predicate Valid(u: Ui) {
    u.selected == 0 || u.selected < |u.hosts|
  }

  predicate Matches(name: string, input: string) {
    StartsWithIgnoringCase(name, input)
  }

  /** The last row whose alias starts with `input`, ignoring case. */
  function LastMatch(hosts: HostMap, input: string): (r: Option<nat>)
    ensures r.Some? ==> r.value < |hosts| && Matches(hosts[r.value].0, input)
    ensures r.Some? ==> forall j :: r.value < j < |hosts| ==> !Matches(hosts[j].0, input)
    ensures r.None? ==> forall j :: 0 <= j < |hosts| ==> !Matches(hosts[j].0, input)
    decreases |hosts|
  {
    if hosts == [] then None
    else if Matches(hosts[|hosts| - 1].0, input) then Some(|hosts| - 1)
    else LastMatch(hosts[..|hosts| - 1], input)
  }

  /** `search_for_host`: select the last matching row; without a match the selection stays. */
  function Searched(u: Ui): (r: Ui)
    ensures r == u.(selected := r.selected)
    ensures (exists j :: 0 <= j < |u.hosts| && Matches(u.hosts[j].0, u.input)) ==>
      && r.selected < |u.hosts| && Matches(u.hosts[r.selected].0, u.input)
      && forall j :: r.selected < j < |u.hosts| ==> !Matches(u.hosts[j].0, u.input)
    ensures (forall j :: 0 <= j < |u.hosts| ==> !Matches(u.hosts[j].0, u.input)) ==> r == u
  {
    match LastMatch(u.hosts, u.input)
    case Some(i) => u.(selected := i)
    case None => u
  }

  /** `update_input`: the keys of search mode. */
  function InputStep(u: Ui, k: Key): (r: Ui)
    ensures r.hosts == u.hosts
    ensures r.mode == u.mode || (r.mode == Nav && r.input == "")
    ensures || r.input == u.input
            || (r.mode == Nav && r.input == "")
            || (k.Char? && r.input == u.input + [k.ch])
            || (k == Backspace && u.input != "" && r.input + [u.input[|u.input| - 1]] == u.input)
    ensures r.selected == u.selected || (k.Char? && r.selected < |u.hosts| && Matches(u.hosts[r.selected].0, r.input))
    ensures Valid(u) ==> Valid(r)
  {
    match k
    case Ctrl('c') => u.(input := "", mode := Nav)
    case Esc => u.(input := "", mode := Nav)
    case Backspace => if u.input != "" then u.(input := u.input[..|u.input| - 1]) else u
    case Char(c) => Searched(u.(input := u.input + [c]))
    case _ => u
  }

  /** `update`: one key event, or none. */
  function Step(u: Ui, event: Option<Key>): (r: Result<Ui, TuiError>)
    requires CanHandle(u, event)
    ensures r.Err? <==> event == Some(Char('\n')) && u.selected >= |u.hosts|
    ensures r.Ok? ==> r.value.hosts == u.hosts
    ensures Valid(u) && r.Ok? ==> Valid(r.value)
    ensures r.Ok? && r.value.mode.Launch? && !u.mode.Launch? ==> r.value.mode.host in Keys(u.hosts)
  {
    match event
    case None => Ok(u)
    case Some(k) =>
      if k == Char('q') then Ok(u.(mode := Quit))
      else if k == Ctrl('c') && u.mode == Nav then Ok(u.(mode := Quit))
      else if k == Char('i') || k == Char('s') then Ok(u.(mode := Search))
      else if k == Up || k == Ctrl('p') then
        Ok(u.(selected := if u.selected == 0 then |u.hosts| - 1 else u.selected - 1))
      else if k == Down || k == Ctrl('n') then
        Ok(u.(selected := if u.selected >= |u.hosts| - 1 then 0 else u.selected + 1))
      else if k == Char('\n') then
        if u.selected < |u.hosts| then
          assert Keys(u.hosts)[u.selected] == u.hosts[u.selected].0;
          Ok(u.(mode := Launch(u.hosts[u.selected].0)))
        else Err(CantFindHost)
      else if u.mode == Search then Ok(InputStep(u, k))
      else Ok(u)
  }

  predicate NoMoves(keys: seq<Key>) {
    forall k <- keys :: !IsMove(k)
  }

  /** The decision part of `run`: feed keys until `Quit`, `Launch` or an error; `None` if the keys run out. */
  function Drive(u: Ui, keys: seq<Key>): (r: (Result<Option<string>, TuiError>, Ui))
    requires |u.hosts| > 0 || NoMoves(keys)
    ensures r.1.hosts == u.hosts
    ensures Valid(u) ==> Valid(r.1)
    ensures Valid(u) && r.0.Err? ==> |u.hosts| == 0
    ensures r.0.Ok? && r.0.value.Some? ==> r.1.mode == Launch(r.0.value.value)
    ensures !u.mode.Launch? && r.0.Ok? && r.0.value.Some? ==> r.0.value.value in Keys(u.hosts)
    decreases |keys|
  {
    if keys == [] then (Ok(None), u)
    else
      match Step(u, Some(keys[0]))
      case Err(e) => (Err(e), u)
      case Ok(u') =>
        match u'.mode
        case Quit => (Ok(None), u')
        case Launch(h) => (Ok(Some(h)), u')
        case _ => Drive(u', keys[1..])
  }

  // ---------------------------------------------------------------------
  // Properties of one key event.

  /** No event: nothing changes. */
  lemma NoEvent(u: Ui)
    ensures Step(u, None) == Ok(u)
  {
  }

  /** `a % n` for an `a` that is `b` or `b + n`, with `b` a row index. */
  lemma WrapMod(a: int, n: int, b: int)
    requires 0 <= b < n && (a == b || a == b + n)
    ensures a % n == b
  {
  }

  /** Up and Down move cyclically: Up from the first row goes to the last, Down from the last to the first. */
  lemma MovesWrap(u: Ui)
    requires Valid(u) && |u.hosts| > 0
    ensures Step(u, Some(Up)) == Step(u, Some(Ctrl('p')))
    ensures Step(u, Some(Down)) == Step(u, Some(Ctrl('n')))
    ensures Step(u, Some(Up)) == Ok(u.(selected := (u.selected + |u.hosts| - 1) % |u.hosts|))
    ensures Step(u, Some(Down)) == Ok(u.(selected := (u.selected + 1) % |u.hosts|))
  {
    var n := |u.hosts|;
    var up := if u.selected == 0 then n - 1 else u.selected - 1;
    var down := if u.selected >= n - 1 then 0 else u.selected + 1;
    assert Step(u, Some(Up)) == Ok(u.(selected := up)) == Step(u, Some(Ctrl('p')));
    assert Step(u, Some(Down)) == Ok(u.(selected := down)) == Step(u, Some(Ctrl('n')));
    WrapMod(u.selected + n - 1, n, up);
    WrapMod(u.selected + 1, n, down);
  }

  /** `q` quits in every mode, search included; Ctrl-C quits only in navigation and leaves search otherwise. */
  lemma QuitKeys(u: Ui)
    ensures Step(u, Some(Char('q'))) == Ok(u.(mode := Quit))
    ensures u.mode == Nav ==> Step(u, Some(Ctrl('c'))) == Ok(u.(mode := Quit))
    ensures u.mode == Search ==> Step(u, Some(Ctrl('c'))) == Ok(u.(mode := Nav, input := ""))
    ensures u.mode.Quit? || u.mode.Launch? ==> Step(u, Some(Ctrl('c'))) == Ok(u)
  {
  }

  /** `i` and `s` enter search mode from any mode and are never typed into the input. */
  lemma SearchKeys(u: Ui, c: char)
    requires c == 'i' || c == 's'
    ensures Step(u, Some(Char(c))) == Ok(u.(mode := Search))
  {
  }

  /** In search mode, Escape and Ctrl-C clear the input and return to navigation. */
  lemma LeaveSearch(u: Ui, k: Key)
    requires u.mode == Search && (k == Esc || k == Ctrl('c'))
    ensures Step(u, Some(k)) == Ok(u.(mode := Nav, input := ""))
  {
  }

  /** In search mode, Backspace drops the last character if there is one and does not search again. */
  lemma BackspaceEdits(u: Ui)
    requires u.mode == Search
    ensures Step(u, Some(Backspace)).Ok?
    ensures var u' := Step(u, Some(Backspace)).value;
      u'.mode == Search && u'.selected == u.selected && u'.hosts == u.hosts
      && (u.input == "" ==> u'.input == "")
      && (u.input != "" ==> u'.input + [u.input[|u.input| - 1]] == u.input)
  {
  }

  /** Enter launches the alias at the selected row, not its hostname; it fails only when the table is empty. */
  lemma EnterLaunches(u: Ui)
    requires Valid(u)
    ensures Step(u, Some(Char('\n'))).Err? <==> |u.hosts| == 0
    ensures Step(u, Some(Char('\n'))).Ok? ==>
      Step(u, Some(Char('\n'))).value == u.(mode := Launch(Keys(u.hosts)[u.selected]))
  {
  }

  /** The keys that are typed into the search input. */
  predicate IsTyped(u: Ui, k: Key) {
    u.mode == Search && k.Char? && k.ch != 'q' && k.ch != 'i' && k.ch != 's' && k.ch != '\n'
  }

  /**
   * The input grows exactly when a character other than `q`, `i`, `s` and
   * Enter is typed in search mode; then the character is appended and the
   * selection moves to the last row whose alias starts with the new input,
   * or stays if there is none.
   */
  lemma TypingSearches(u: Ui, k: Key)
    requires Valid(u) && CanHandle(u, Some(k))
    ensures (Step(u, Some(k)).Ok? && |Step(u, Some(k)).value.input| > |u.input|) <==> IsTyped(u, k)
    ensures IsTyped(u, k) ==>
      var u' := Step(u, Some(k)).value;
      && u'.input == u.input + [k.ch]
      && u'.mode == Search
      && ((exists j :: 0 <= j < |u.hosts| && Matches(u.hosts[j].0, u'.input)) ==>
            && u'.selected < |u.hosts| && Matches(u.hosts[u'.selected].0, u'.input)
            && forall j :: u'.selected < j < |u.hosts| ==> !Matches(u.hosts[j].0, u'.input))
      && ((forall j :: 0 <= j < |u.hosts| ==> !Matches(u.hosts[j].0, u'.input)) ==> u'.selected == u.selected)
  {
    if IsTyped(u, k) {
      var v := u.(input := u.input + [k.ch]);
      assert Step(u, Some(k)) == Ok(Searched(v));
    }
  }

  /** Every matching row overwrites the selection, so of `docker1` and `docker2` the search for `do` keeps `docker2`. */
  lemma LastMatchWins(hosts: HostMap, input: string)
    requires hosts == [("docker1", "docker1"), ("docker2", "docker2"), ("nas01", "nas01")]
    requires input == "do"
    ensures LastMatch(hosts, input) == Some(1)
  {
    assert Lower(input) == input;
    assert Lower(hosts[2].0) == hosts[2].0;
    assert hosts[2].0[0] == 'n' && input[0] == 'd';
    assert !(input <= hosts[2].0);
    assert Lower(hosts[1].0)[..2] == input;
  }

  // ---------------------------------------------------------------------
  // Properties of a run.

  /** Enter right after start launches the first alias of the table. */
  lemma EnterAtStart(hosts: HostMap, rest: seq<Key>)
    requires |hosts| > 0
    ensures Drive(Ui(Nav, "", 0, hosts), [Char('\n')] + rest).0 == Ok(Some(hosts[0].0))
  {
  }

  /** `q` ends the run at once, with no host. */
  lemma QuitEndsRun(u: Ui, rest: seq<Key>)
    requires |u.hosts| > 0 || NoMoves(rest)
    ensures Drive(u, [Char('q')] + rest) == (Ok(None), u.(mode := Quit))
  {
    assert NoMoves(rest) ==> NoMoves([Char('q')] + rest);
  }

  /** The picker's state; the terminal handle is not modelled. */
  class TUI {
    var mode: Mode
    var input: string
    var selected: nat
    var hosts: HostMap

    function State(): Ui
      reads this
    {
      Ui(mode, input, selected, hosts)
    }

    /** `TUI::new`, with the host table given instead of loaded in `run`. */
    constructor (hosts: HostMap)
      ensures State() == Ui(Nav, "", 0, hosts)
    {
      mode := Nav;
      input := "";
      selected := 0;
      this.hosts := hosts;
    }

    /** `update`. */
    method Update(event: Option<Key>) returns (r: Result<(), TuiError>)
      requires CanHandle(State(), event)
      modifies this
      ensures Step(old(State()), event).Ok? ==> r.Ok? && State() == Step(old(State()), event).value
      ensures Step(old(State()), event).Err? ==> r == Err(Step(old(State()), event).error) && State() == old(State())
    {
      if event.None? {
        return Ok(());
      }
      var k := event.value;
      if k == Char('q') {
        mode := Quit;
      } else if k == Ctrl('c') && mode == Nav {
        mode := Quit;
      } else if k == Char('i') || k == Char('s') {
        mode := Search;
      } else if k == Up || k == Ctrl('p') {
        if selected == 0 {
          selected := |hosts| - 1;
        } else {
          selected := selected - 1;
        }
      } else if k == Down || k == Ctrl('n') {
        if selected >= |hosts| - 1 {
          selected := 0;
        } else {
          selected := selected + 1;
        }
      } else if k == Char('\n') {
        if selected < |hosts| {
          mode := Launch(hosts[selected].0);
        } else {
          return Err(CantFindHost);
        }
      } else if mode == Search {
        UpdateInput(k);
      }
      return Ok(());
    }

    /** `update_input`. */
    method UpdateInput(k: Key)
      modifies this
      ensures State() == InputStep(old(State()), k)
    {
      match k
      case Ctrl('c') =>
        input := "";
        mode := Nav;
      case Esc =>
        input := "";
        mode := Nav;
      case Backspace =>
        if input != "" {
          input := input[..|input| - 1];
        }
      case Char(c) =>
        input := input + [c];
        SearchForHost();
      case _ =>
    }

    /** `search_for_host`: every matching row overwrites the selection, so the last one wins. */
    method SearchForHost()
      modifies this`selected
      ensures State() == Searched(old(State()))
    {
      var i := 0;
      while i < |hosts|
        invariant i <= |hosts|
        invariant LastMatch(hosts[..i], input).Some? ==> selected == LastMatch(hosts[..i], input).value
        invariant LastMatch(hosts[..i], input).None? ==> selected == old(selected)
      {
        assert hosts[..i + 1][..i] == hosts[..i];
        if Matches(hosts[i].0, input) {
          selected := i;
        }
        i := i + 1;
      }
      assert hosts[..i] == hosts;
    }

    /** `run`, over a given sequence of keys instead of standard input; drawing is left out. */
    method Run(keys: seq<Key>) returns (r: Result<Option<string>, TuiError>)
      requires |hosts| > 0 || NoMoves(keys)
      modifies this
      ensures (r, State()) == Drive(old(State()), keys)
    {
      var _ := Update(None);
      var i := 0;
      while i < |keys|
        invariant i <= |keys| && hosts == old(hosts)
        invariant Drive(old(State()), keys) == Drive(State(), keys[i..])
      {
        assert keys[i..][0] == keys[i] && keys[i..][1..] == keys[i + 1..];
        var res := Update(Some(keys[i]));
        if res.Err? {
          return Err(res.error);
        }
        match mode {
          case Quit => break;
          case Launch(h) => return Ok(Some(h));
          case _ =>
        }
        i := i + 1;
      }
      return Ok(None);
    }
  }
}
