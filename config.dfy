/**
 * The selection state and the messages that change it, and the resolution
 * of the status-bar settings (i3configger/config.py).
 *
 * The state document has two namespaces: `selects` (the `select`
 * namespace) maps a selector key to the value whose partial is built,
 * `sets` (the `set` namespace) holds free settings.
 */
module Config {
  import opened Wrappers
  import opened Seqs
  import Partials

  /** The select key reserved for the status bar, never seeded into the state. */
  const I3STATUS := "i3status"
  /** The value of a `set` message that deletes the setting. */
  const DEL := "del"
  /** The entry of the bar settings that holds the defaults of every bar. */
  const DEFAULTS := "defaults"

  datatype Error =
    | UnknownMessage(name: string, known: seq<string>)  // MessageError raised by get_spec
    | TooFewArguments(message: seq<string>)             // unpacking `command, key, *rest` fails
    | MissingValue(key: string)                         // `set` without a value: `None.lower()`
    | NoSuchSetting(key: string)                        // KeyError deleting an absent setting
    | NoCandidates(key: string)                         // MessageError: no partial has the key
    | NotACandidate(current: string)                    // ValueError from `items.index`
    | NoCandidate(key: string, value: Option<string>)   // MessageError: no partial for key and value

  /** The messages the state understands, each with the number of arguments it takes. */
  datatype Command = SelectNext | SelectPrevious | SelectOne | SetValue {
    function Name(): string {
      match this
      case SelectNext => "select-next"
      case SelectPrevious => "select-previous"
      case SelectOne => "select"
      case SetValue => "set"
    }

    function Arity(): nat {
      match this
      case SelectNext => 1
      case SelectPrevious => 1
      case SelectOne => 2
      case SetValue => 2
    }
  }

  /** `State._ALL`, in its order. */
  const ALL: seq<Command> := [SelectNext, SelectPrevious, SelectOne, SetValue]

  /** The names `get_spec` lists when it does not know a message. */
  const KNOWN_NAMES: seq<string> := Map(ALL, (c: Command) => c.Name())

  /** The first command in `cmds` called `name`, if any. */
  function Lookup(cmds: seq<Command>, name: string): (r: Option<Command>)
    ensures r.None? <==> forall i :: 0 <= i < |cmds| ==> cmds[i].Name() != name
    ensures r.Some? ==>
      exists i :: 0 <= i < |cmds| && cmds[i] == r.value && r.value.Name() == name
        && forall j :: 0 <= j < i ==> cmds[j].Name() != name
  {
    if cmds == [] then None
    else if cmds[0].Name() == name then Some(cmds[0])
    else
      var r := Lookup(cmds[1..], name);
      assert forall i :: 1 <= i < |cmds| ==> cmds[i] == cmds[1..][i - 1];
      if r.Some? then
        var i :| 0 <= i < |cmds[1..]| && cmds[1..][i] == r.value && r.value.Name() == name
          && forall j :: 0 <= j < i ==> cmds[1..][j].Name() != name;
        assert cmds[i + 1] == r.value;
        r
      else r
  }

  /**
   * `get_spec`: the number of arguments of the message called `name`, or
   * an error naming the message and listing every known name.
   */
  function GetSpec(name: string): (r: Result<nat, Error>)
    ensures r.Ok? <==> exists c :: c in ALL && c.Name() == name
    ensures r.Ok? ==> exists c :: c in ALL && c.Name() == name && r.value == c.Arity()
    ensures r.Err? ==> r.error == UnknownMessage(name, KNOWN_NAMES)
  {
    match Lookup(ALL, name)
    case Some(c) => Ok(c.Arity())
    case None => Err(UnknownMessage(name, KNOWN_NAMES))
  }

  /** The names of the four messages, in the order `get_spec` lists them. */
  lemma KnownNames()
    ensures KNOWN_NAMES == ["select-next", "select-previous", "select", "set"]
  {
  }

  /** The four messages and their arities. */
  lemma GetSpecArities()
    ensures GetSpec("select-next") == Ok(1) && GetSpec("select-previous") == Ok(1)
    ensures GetSpec("select") == Ok(2) && GetSpec("set") == Ok(2)
  {
    assert ALL[0].Name() == "select-next";
    assert ALL[1].Name() == "select-previous";
    assert ALL[2].Name() == "select";
    assert ALL[3].Name() == "set";
  }

  /** Every other name is unknown, and the error lists the four known ones. */
  lemma GetSpecUnknown(name: string)
    requires name !in ["select-next", "select-previous", "select", "set"]
    ensures GetSpec(name) == Err(UnknownMessage(name, ["select-next", "select-previous", "select", "set"]))
  {
    KnownNames();
    forall c | c in ALL ensures c.Name() != name {
      assert c.Name() in ["select-next", "select-previous", "select", "set"];
    }
  }

  /** Python's `list.index`: the position of the first occurrence of `x`. */
  function IndexOf<T(==)>(items: seq<T>, x: T): (i: nat)
    requires x in items
    ensures i < |items| && items[i] == x
    ensures forall j :: 0 <= j < i ==> items[j] != x
  {
    if items[0] == x then 0 else 1 + IndexOf(items[1..], x)
  }

  /**
   * `_next`: the item after the first occurrence of `current`, the first
   * item after the last one; nothing when `current` is not an item (the
   * source raises ValueError then).
   */
  function Next<T(==)>(current: T, items: seq<T>): (r: Option<T>)
    ensures r.None? <==> current !in items
    ensures r.Some? ==> r.value in items
  {
    if current !in items then None
    else
      var i := IndexOf(items, current);
      if i + 1 < |items| then Some(items[i + 1]) else Some(items[0])
  }

  /**
   * `_previous`: the item before the first occurrence of `current`, the
   * last item before the first one (Python's index -1); nothing when
   * `current` is not an item.
   */
  function Previous<T(==)>(current: T, items: seq<T>): (r: Option<T>)
    ensures r.None? <==> current !in items
    ensures r.Some? ==> r.value in items
  {
    if current !in items then None
    else
      var i := IndexOf(items, current);
      if i == 0 then Some(items[|items| - 1]) else Some(items[i - 1])
  }

  /** No item occurs twice. */
  predicate Distinct<T(==)>(items: seq<T>) {
    forall i, j :: 0 <= i < j < |items| ==> items[i] != items[j]
  }

  /** The position after `k` among `n`, wrapping to the first. */
  function Succ(k: nat, n: nat): nat {
    if k + 1 < n then k + 1 else 0
  }

  /** The position before `k` among `n`, wrapping to the last. */
  function Pred(k: nat, n: nat): nat
    requires n > 0
  {
    if k == 0 then n - 1 else k - 1
  }

  /**
   * From the first occurrence of an item, `_next` moves one step forward and
   * `_previous` one step back, cyclically; repeats later in the list do not
   * matter.
   */
  lemma CycleSteps<T>(items: seq<T>, k: nat)
    requires k < |items| && forall j :: 0 <= j < k ==> items[j] != items[k]
    ensures Next(items[k], items) == Some(items[Succ(k, |items|)])
    ensures Previous(items[k], items) == Some(items[Pred(k, |items|)])
  {
    assert IndexOf(items, items[k]) == k;
  }

  /** With a repeated value, `_next` steps from its first occurrence onto the repeat. */
  lemma NextFromFirstOccurrence()
    ensures Next("dark", ["dark", "dark", "light"]) == Some("dark")
    ensures Previous("light", ["dark", "dark", "light"]) == Some("dark")
  {
    CycleSteps(["dark", "dark", "light"], 0);
    CycleSteps(["dark", "dark", "light"], 2);
  }

  /** On distinct items, `_previous` undoes `_next` and `_next` undoes `_previous`. */
  lemma NextPreviousInverse<T>(items: seq<T>, c: T)
    requires Distinct(items) && c in items
    ensures Next(c, items).Some? && Previous(Next(c, items).value, items) == Some(c)
    ensures Previous(c, items).Some? && Next(Previous(c, items).value, items) == Some(c)
  {
    var n := |items|;
    var k :| 0 <= k < n && items[k] == c;
    CycleSteps(items, k);
    CycleSteps(items, Succ(k, n));
    CycleSteps(items, Pred(k, n));
    assert Pred(Succ(k, n), n) == k && Succ(Pred(k, n), n) == k;
  }

  /**
   * The values of the partials with the given key, in their order: the
   * candidates that `select-next` and `select-previous` cycle through.
   */
  function Candidates(prts: seq<Partials.Partial>, key: string): (r: seq<string>)
    ensures forall v :: v in r <==> exists i :: 0 <= i < |prts| && Partials.Matches(prts[i], key, v)
  {
    if prts == [] then []
    else
      var rest := Candidates(prts[1..], key);
      assert forall i :: 1 <= i < |prts| ==> prts[i] == prts[1..][i - 1];
      if prts[0].Key() == Some(key) then [prts[0].Value().value] + rest else rest
  }

  /** A value can be cycled to exactly when `find` has a partial for it. */
  lemma CandidatesAreFound(prts: seq<Partials.Partial>, key: string, v: string)
    ensures v in Candidates(prts, key) <==> Partials.Find(prts, key, v).Some?
  {
  }

  /** `prt.key == key`, as a filter over partials. */
  function HasKey(key: string): Partials.Partial -> bool {
    (p: Partials.Partial) => p.Key() == Some(key)
  }

  /** The value of a partial, "" for one without selectors. */
  function ValueText(p: Partials.Partial): string {
    if p.Value().Some? then p.Value().value else ""
  }

  /**
   * The candidates are the values of the partials with the key, in the
   * order of the partials and once per partial: the order the cycling
   * follows.
   */
  lemma {:induction false} CandidatesInOrder(prts: seq<Partials.Partial>, key: string)
    ensures Candidates(prts, key) == Map(Filter(prts, HasKey(key)), ValueText)
  {
    if prts != [] {
      var x, rest := prts[0], prts[1..];
      CandidatesInOrder(rest, key);
      assert prts == [x] + rest;
      FilterAppend([x], rest, HasKey(key));
      assert [x][..0] == [];
      var kept := Filter(rest, HasKey(key));
      if HasKey(key)(x) {
        assert Filter([x], HasKey(key)) == [x];
        assert ([x] + kept)[1..] == kept;
      } else {
        assert Filter([x], HasKey(key)) == [];
      }
    }
  }

  /** Python's `str.lower` on one character, for the ASCII letters. */
  function LowerChar(c: char): char {
    if 'A' <= c <= 'Z' then (c as int - 'A' as int + 'a' as int) as char else c
  }

  /** `value.lower() == 'del'`. */
  predicate IsDel(value: string) {
    Map(value, LowerChar) == DEL
  }

  /** The state document. */
  datatype StateDoc = StateDoc(selects: map<string, string>, sets: map<string, string>)

  /** A partial that `populate_initial_state` seeds: conditional, and not the status bar. */
  predicate Seeded(p: Partials.Partial) {
    p.Conditional() && p.Key() != Some(I3STATUS)
  }

  /** The `select` namespace seeded from `prts`, the later partial with a key winning. */
  function InitialSelects(prts: seq<Partials.Partial>): map<string, string> {
    if prts == [] then map[]
    else
      var selects := InitialSelects(prts[..|prts| - 1]);
      var p := prts[|prts| - 1];
      if Seeded(p) then selects[p.Key().value := p.Value().value] else selects
  }

  /**
   * The seeded keys are exactly the keys of the seeded partials, and each
   * holds the value of the last partial with that key.
   */
  lemma {:induction false} InitialSelectsChoosesLast(prts: seq<Partials.Partial>, key: string)
    ensures key in InitialSelects(prts) <==> exists i :: 0 <= i < |prts| && Seeded(prts[i]) && prts[i].Key() == Some(key)
    ensures key in InitialSelects(prts) ==>
      exists i :: 0 <= i < |prts| && Seeded(prts[i]) && prts[i].Key() == Some(key)
        && prts[i].Value() == Some(InitialSelects(prts)[key])
        && forall j :: i < j < |prts| ==> prts[j].Key() != Some(key)
  {
    if prts != [] {
      var init := prts[..|prts| - 1];
      var p := prts[|prts| - 1];
      InitialSelectsChoosesLast(init, key);
      assert forall i :: 0 <= i < |init| ==> init[i] == prts[i];
      if Seeded(p) && p.Key() == Some(key) {
        assert prts[|prts| - 1] == p;
      } else if key in InitialSelects(prts) {
        var i :| 0 <= i < |init| && Seeded(init[i]) && init[i].Key() == Some(key)
          && init[i].Value() == Some(InitialSelects(init)[key])
          && forall j :: i < j < |init| ==> init[j].Key() != Some(key);
        assert prts[i] == init[i];
      }
    }
  }

  /** The `i3status` key is never seeded. */
  lemma InitialSelectsSkipsStatusBar(prts: seq<Partials.Partial>)
    ensures I3STATUS !in InitialSelects(prts)
  {
    InitialSelectsChoosesLast(prts, I3STATUS);
  }

  /** The state a fresh store starts from. */
  function InitialState(prts: seq<Partials.Partial>): StateDoc {
    StateDoc(InitialSelects(prts), map[])
  }

  /** What `fetch_state` returns: the stored document, or the initial one when there is none. */
  function Fetched(stored: Option<StateDoc>, prts: seq<Partials.Partial>): StateDoc {
    if stored.Some? then stored.value else InitialState(prts)
  }

  /** The value of `key` that cycling starts from: the selected one, else the last candidate. */
  function Current(select: map<string, string>, key: string, candidates: seq<string>): string
    requires candidates != []
  {
    if key in select && select[key] != "" then select[key] else candidates[|candidates| - 1]
  }

  /** A `set` message: store the value, or delete the setting when the value is `del`. */
  function SetSetting(doc: StateDoc, key: string, value: Option<string>): Result<StateDoc, Error> {
    if value.None? then Err(MissingValue(key))
    else if IsDel(value.value) then
      if key in doc.sets then Ok(StateDoc(doc.selects, doc.sets - {key})) else Err(NoSuchSetting(key))
    else Ok(StateDoc(doc.selects, doc.sets[key := value.value]))
  }

  /**
   * A `select` message: select the value of the partial `find` returns.
   * The source's `del` branch compares the method `value.lower` with a
   * string, so it is never taken.
   */
  function SelectValue(doc: StateDoc, prts: seq<Partials.Partial>, key: string, value: Option<string>): Result<StateDoc, Error> {
    var found := if value.Some? then Partials.Find(prts, key, value.value) else None;
    if found.None? then Err(NoCandidate(key, value))
    else Ok(StateDoc(doc.selects[key := found.value.Value().value], doc.sets))
  }

  /** A `select-next` (`forward`) or `select-previous` message. */
  function Cycle(doc: StateDoc, prts: seq<Partials.Partial>, key: string, forward: bool): Result<StateDoc, Error> {
    var candidates := Candidates(prts, key);
    if candidates == [] then Err(NoCandidates(key))
    else
      var current := Current(doc.selects, key, candidates);
      var moved := if forward then Next(current, candidates) else Previous(current, candidates);
      if moved.None? then Err(NotACandidate(current))
      else Ok(StateDoc(doc.selects[key := moved.value], doc.sets))
  }

  /** The effect of a non-empty message on a state document. */
  function Apply(doc: StateDoc, prts: seq<Partials.Partial>, message: seq<string>): Result<StateDoc, Error> {
    if |message| < 2 then Err(TooFewArguments(message))
    else
      var key := message[1];
      var value := if |message| > 2 then Some(message[2]) else None;
      match Lookup(ALL, message[0])
      case Some(SetValue) => SetSetting(doc, key, value)
      case Some(SelectOne) => SelectValue(doc, prts, key, value)
      case Some(SelectNext) => Cycle(doc, prts, key, true)
      case Some(SelectPrevious) => Cycle(doc, prts, key, false)
      case None => Ok(doc)
  }

  /** A `set` message with a value goes to the `set` branch. */
  lemma RouteSet(doc: StateDoc, prts: seq<Partials.Partial>, key: string, value: string)
    ensures Apply(doc, prts, ["set", key, value]) == SetSetting(doc, key, Some(value))
  {
  }

  /** A `set` message without a value goes to the `set` branch, which has no value to read. */
  lemma RouteSetWithoutValue(doc: StateDoc, prts: seq<Partials.Partial>, key: string)
    ensures Apply(doc, prts, ["set", key]) == SetSetting(doc, key, None)
  {
  }

  /** A `select` message goes to the `select` branch. */
  lemma RouteSelect(doc: StateDoc, prts: seq<Partials.Partial>, key: string, value: string)
    ensures Apply(doc, prts, ["select", key, value]) == SelectValue(doc, prts, key, Some(value))
  {
  }

  /** A `select-next` message cycles forward. */
  lemma RouteNext(doc: StateDoc, prts: seq<Partials.Partial>, key: string)
    ensures Apply(doc, prts, ["select-next", key]) == Cycle(doc, prts, key, true)
  {
  }

  /** A `select-previous` message cycles backward. */
  lemma RoutePrevious(doc: StateDoc, prts: seq<Partials.Partial>, key: string)
    ensures Apply(doc, prts, ["select-previous", key]) == Cycle(doc, prts, key, false)
  {
  }

  /**
   * `set key value` stores the value, and `set key del` (in any case)
   * removes the setting, failing when there is none; without a value it
   * fails. The `select` namespace is untouched.
   */
  lemma SetSettingEffect(doc: StateDoc, key: string, value: Option<string>)
    ensures var r := SetSetting(doc, key, value);
      && (r.Err? <==> value.None? || (IsDel(value.value) && key !in doc.sets))
      && (value.None? ==> r == Err(MissingValue(key)))
      && (value.Some? && r.Err? ==> r.error == NoSuchSetting(key))
      && (r.Ok? ==>
            && r.value.selects == doc.selects
            && (key in r.value.sets <==> !IsDel(value.value))
            && (!IsDel(value.value) ==> r.value.sets[key] == value.value)
            && (forall k :: k != key ==> (k in r.value.sets <==> k in doc.sets))
            && (forall k :: k != key && k in doc.sets ==> r.value.sets[k] == doc.sets[k]))
  {
    if value.Some? && !IsDel(value.value) {
      assert doc.sets[key := value.value][key] == value.value;
    }
  }

  /**
   * `select key value` succeeds exactly when some partial has that key and
   * value, and then selects that value and nothing else.
   */
  lemma SelectValueEffect(doc: StateDoc, prts: seq<Partials.Partial>, key: string, value: string)
    ensures var r := SelectValue(doc, prts, key, Some(value));
      && (r.Ok? <==> exists i :: 0 <= i < |prts| && Partials.Matches(prts[i], key, value))
      && (r.Err? ==> r.error == NoCandidate(key, Some(value)))
      && (r.Ok? ==> r.value == StateDoc(doc.selects[key := value], doc.sets))
  {
  }

  /**
   * `select-next` and `select-previous` fail when no partial has the key;
   * otherwise they select one of its candidate values and change nothing
   * else.
   */
  lemma CycleEffect(doc: StateDoc, prts: seq<Partials.Partial>, key: string, forward: bool)
    ensures var r := Cycle(doc, prts, key, forward);
      && (Candidates(prts, key) == [] ==> r == Err(NoCandidates(key)))
      && (r.Ok? ==>
            && r.value.sets == doc.sets
            && key in r.value.selects
            && (exists i :: 0 <= i < |prts| && Partials.Matches(prts[i], key, r.value.selects[key]))
            && (forall k :: k != key ==> (k in r.value.selects <==> k in doc.selects))
            && (forall k :: k != key && k in doc.selects ==> r.value.selects[k] == doc.selects[k]))
  {
  }

  /** Cycling from a selected candidate value moves the selection one step. */
  lemma CycleFromSelected(doc: StateDoc, prts: seq<Partials.Partial>, key: string, forward: bool)
    requires key in doc.selects && doc.selects[key] != "" && doc.selects[key] in Candidates(prts, key)
    ensures var candidates, cur := Candidates(prts, key), doc.selects[key];
      var moved := if forward then Next(cur, candidates) else Previous(cur, candidates);
      moved.Some? && Cycle(doc, prts, key, forward) == Ok(StateDoc(doc.selects[key := moved.value], doc.sets))
  {
  }

  /** Cycling back from a forward step restores the document. */
  lemma CycleBackUndoesForward(doc: StateDoc, prts: seq<Partials.Partial>, key: string)
    requires Distinct(Candidates(prts, key)) && "" !in Candidates(prts, key)
    requires key in doc.selects && doc.selects[key] in Candidates(prts, key)
    ensures Cycle(doc, prts, key, true).Ok?
    ensures Cycle(Cycle(doc, prts, key, true).value, prts, key, false) == Ok(doc)
  {
    var candidates := Candidates(prts, key);
    var cur := doc.selects[key];
    NextPreviousInverse(candidates, cur);
    var mid := StateDoc(doc.selects[key := Next(cur, candidates).value], doc.sets);
    CycleFromSelected(doc, prts, key, true);
    CycleFromSelected(mid, prts, key, false);
    assert mid.selects[key := cur] == doc.selects;
  }

  /** Cycling forward from a backward step restores the document. */
  lemma CycleForwardUndoesBack(doc: StateDoc, prts: seq<Partials.Partial>, key: string)
    requires Distinct(Candidates(prts, key)) && "" !in Candidates(prts, key)
    requires key in doc.selects && doc.selects[key] in Candidates(prts, key)
    ensures Cycle(doc, prts, key, false).Ok?
    ensures Cycle(Cycle(doc, prts, key, false).value, prts, key, true) == Ok(doc)
  {
    var candidates := Candidates(prts, key);
    var cur := doc.selects[key];
    NextPreviousInverse(candidates, cur);
    var mid := StateDoc(doc.selects[key := Previous(cur, candidates).value], doc.sets);
    CycleFromSelected(doc, prts, key, false);
    CycleFromSelected(mid, prts, key, true);
    assert mid.selects[key := cur] == doc.selects;
  }

  /**
   * With distinct, non-empty candidate values and a current selection among
   * them, `select-next` undoes `select-previous`.
   */
  lemma NextUndoesPrevious(doc: StateDoc, prts: seq<Partials.Partial>, key: string)
    requires Distinct(Candidates(prts, key)) && "" !in Candidates(prts, key)
    requires key in doc.selects && doc.selects[key] in Candidates(prts, key)
    ensures Apply(doc, prts, ["select-previous", key]).Ok?
    ensures Apply(Apply(doc, prts, ["select-previous", key]).value, prts, ["select-next", key]) == Ok(doc)
  {
    CycleForwardUndoesBack(doc, prts, key);
    RoutePrevious(doc, prts, key);
    RouteNext(Cycle(doc, prts, key, false).value, prts, key);
  }

  /**
   * With distinct, non-empty candidate values and a current selection among
   * them, `select-previous` undoes `select-next`.
   */
  lemma PreviousUndoesNext(doc: StateDoc, prts: seq<Partials.Partial>, key: string)
    requires Distinct(Candidates(prts, key)) && "" !in Candidates(prts, key)
    requires key in doc.selects && doc.selects[key] in Candidates(prts, key)
    ensures Apply(doc, prts, ["select-next", key]).Ok?
    ensures Apply(Apply(doc, prts, ["select-next", key]).value, prts, ["select-previous", key]) == Ok(doc)
  {
    CycleBackUndoesForward(doc, prts, key);
    RouteNext(doc, prts, key);
    RoutePrevious(Cycle(doc, prts, key, true).value, prts, key);
  }

  /** A message whose command is not one of the four leaves the state as it is. */
  lemma ApplyUnknownKeepsState(doc: StateDoc, prts: seq<Partials.Partial>, message: seq<string>)
    requires |message| >= 2 && forall c :: c in ALL ==> c.Name() != message[0]
    ensures Apply(doc, prts, message) == Ok(doc)
  {
  }

  /**
   * The state file: absent (`None`) until the first fetch seeds it, then
   * the last document frozen into it.
   */
  class StateStore {
    var stored: Option<StateDoc>

    constructor(stored: Option<StateDoc>)
      ensures this.stored == stored
    {
      this.stored := stored;
    }

    /** `populate_initial_state`: seeds `select` from the partials, freezes and returns the document. */
    method PopulateInitialState(prts: seq<Partials.Partial>) returns (doc: StateDoc)
      modifies this
      ensures doc == InitialState(prts) && stored == Some(doc)
    {
      var selects: map<string, string> := map[];
      for i := 0 to |prts|
        invariant selects == InitialSelects(prts[..i])
      {
        var prt := prts[i];
        assert prts[..i + 1][..i] == prts[..i];
        if prt.Conditional() && prt.Key() != Some(I3STATUS) {
          selects := selects[prt.Key().value := prt.Value().value];
        }
      }
      assert prts[..|prts|] == prts;
      doc := StateDoc(selects, map[]);
      stored := Some(doc);
    }

    /** `fetch_state`: the stored document, seeding the store first when it is empty. */
    method FetchState(prts: seq<Partials.Partial>) returns (doc: StateDoc)
      modifies this
      ensures doc == Fetched(old(stored), prts) && stored == Some(doc)
    {
      if stored.None? {
        doc := PopulateInitialState(prts);
      } else {
        doc := stored.value;
      }
    }

    /**
     * `process`: an empty message returns the fetched state; any other
     * message changes the fetched state and freezes it, or fails and
     * leaves the store holding the fetched state.
     */
    method Process(prts: seq<Partials.Partial>, message: seq<string>) returns (r: Result<Option<StateDoc>, Error>)
      modifies this
      ensures var fetched := Fetched(old(stored), prts);
        if message == [] then r == Ok(Some(fetched)) && stored == Some(fetched)
        else
          var applied := Apply(fetched, prts, message);
          && (applied.Err? ==> r == Err(applied.error) && stored == Some(fetched))
          && (applied.Ok? ==> r == Ok(None) && stored == Some(applied.value))
    {
      var state := FetchState(prts);
      if message == [] {
        return Ok(Some(state));
      }
      if |message| < 2 {
        return Err(TooFewArguments(message));
      }
      var command, key := message[0], message[1];
      var value := if |message| > 2 then Some(message[2]) else None;
      var selects, sets := state.selects, state.sets;
      match Lookup(ALL, command) {
      case Some(SetValue) =>
        if value.None? {
          return Err(MissingValue(key));
        }
        if IsDel(value.value) {
          if key !in sets {
            return Err(NoSuchSetting(key));
          }
          sets := sets - {key};
        } else {
          sets := sets[key := value.value];
        }
      case Some(SelectOne) =>
        var candidate := if value.Some? then Partials.Find(prts, key, value.value) else None;
        if candidate.None? {
          return Err(NoCandidate(key, value));
        }
        selects := selects[key := candidate.value.Value().value];
      case Some(cycle) =>
        var candidates := Candidates(prts, key);
        if candidates == [] {
          return Err(NoCandidates(key));
        }
        var current := Current(selects, key, candidates);
        var moved := if cycle == SelectNext then Next(current, candidates) else Previous(current, candidates);
        if moved.None? {
          return Err(NotACandidate(current));
        }
        selects := selects[key := moved.value];
      case None =>
      }
      stored := Some(StateDoc(selects, sets));
      r := Ok(None);
    }
  }

  /** The defaults entry of the bar settings, empty when there is none. */
  function Defaults<V>(bars: map<string, map<string, V>>): map<string, V> {
    if DEFAULTS in bars then bars[DEFAULTS] else map[]
  }

  /** The inner loop of `populate_bar_defaults`: a copy of `bar` with every default it lacks. */
  method WithDefaults<V>(bar: map<string, V>, defaults: map<string, V>) returns (newBar: map<string, V>)
    ensures forall k :: k in newBar <==> k in bar || k in defaults
    ensures forall k :: k in bar ==> newBar[k] == bar[k]
    ensures forall k :: k in newBar && k !in bar ==> newBar[k] == defaults[k]
  {
    newBar := bar;
    var pending := defaults.Keys;
    while pending != {}
      invariant pending <= defaults.Keys
      invariant forall k :: k in newBar <==> k in bar || (k in defaults && k !in pending)
      invariant forall k :: k in bar ==> newBar[k] == bar[k]
      invariant forall k :: k in newBar && k !in bar ==> newBar[k] == defaults[k]
      decreases |pending|
    {
      var k :| k in pending;
      pending := pending - {k};
      if k !in newBar {
        newBar := newBar[k := defaults[k]];
      }
    }
  }

  /**
   * `populate_bar_defaults`: every bar but the defaults entry, each with its
   * own settings and every default setting it lacks.
   */
  method PopulateBarDefaults<V>(bars: map<string, map<string, V>>) returns (resolved: map<string, map<string, V>>)
    ensures forall name :: name in resolved <==> name in bars && name != DEFAULTS
    ensures forall name, k :: name in resolved ==> (k in resolved[name] <==> k in bars[name] || k in Defaults(bars))
    ensures forall name, k :: name in resolved && k in bars[name] ==> resolved[name][k] == bars[name][k]
    ensures forall name, k :: name in resolved && k !in bars[name] && k in Defaults(bars) ==>
      resolved[name][k] == Defaults(bars)[k]
  {
    var defaults := Defaults(bars);
    resolved := map[];
    var names := bars.Keys;
    while names != {}
      invariant names <= bars.Keys
      invariant forall name :: name in resolved <==> name in bars && name !in names && name != DEFAULTS
      invariant forall name, k :: name in resolved ==> (k in resolved[name] <==> k in bars[name] || k in defaults)
      invariant forall name, k :: name in resolved && k in bars[name] ==> resolved[name][k] == bars[name][k]
      invariant forall name, k :: name in resolved && k !in bars[name] && k in defaults ==>
        resolved[name][k] == defaults[k]
      decreases |names|
    {
      var name :| name in names;
      names := names - {name};
      if name == DEFAULTS {
        continue;
      }
      var newBar := WithDefaults(bars[name], defaults);
      resolved := resolved[name := newBar];
    }
  }
}
