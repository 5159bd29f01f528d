/**
 * The command-line selector arguments of i3configger (i3configger/utils.py):
 * `--select-<key>=<value>` tokens become a map from keys to values.
 */
module Utils {
  import opened Wrappers
  import opened Text
  import opened Seqs

  /** The prefix of a selector argument. */
  const MARKER := "--select-"

  datatype ArgError =
    | Unpack(arg: string)              // ValueError: the split does not give exactly two pieces
    | Unrecognized(argv: seq<string>)  // parser.error: some argument went to the leftovers

  /** `arg[markerLen:]`: what follows the marker's length, empty for a shorter argument. */
  function AfterMarker(arg: string): string {
    if |arg| >= |MARKER| then arg[|MARKER|..] else ""
  }

  /** An argument that does not go to the leftovers: it starts with the marker and holds a `=`. */
  predicate IsSelectorArg(arg: string) {
    MARKER <= arg && '=' in arg
  }

  /** The key and value unpacked from the split of the text after the marker, if it has two pieces. */
  function Assignment(arg: string): Option<(string, string)> {
    var pieces := SplitBy(AfterMarker(arg), IsEquals);
    if |pieces| == 2 then Some((pieces[0], pieces[1])) else None
  }

  /** The loop state of `get_selector_map`. */
  datatype Parse = Parse(selectorMap: map<string, string>, leftovers: seq<string>)

  /** One iteration: a malformed argument is kept as a leftover, then the unpack may fail. */
  function ParseStep(st: Parse, arg: string): Result<Parse, ArgError> {
    var leftovers := if IsSelectorArg(arg) then st.leftovers else st.leftovers + [arg];
    match Assignment(arg)
    case None => Err(Unpack(arg))
    case Some(kv) => Ok(Parse(st.selectorMap[kv.0 := kv.1], leftovers))
  }

  /** The loop of `get_selector_map` over the arguments. */
  function ParseArgs(argv: seq<string>): Result<Parse, ArgError> {
    if argv == [] then Ok(Parse(map[], []))
    else
      match ParseArgs(argv[..|argv| - 1])
      case Err(e) => Err(e)
      case Ok(st) => ParseStep(st, argv[|argv| - 1])
  }

  /** What `get_selector_map` returns or raises. */
  function SelectorMap(argv: seq<string>): Result<map<string, string>, ArgError> {
    match ParseArgs(argv)
    case Err(e) => Err(e)
    case Ok(st) => if st.leftovers != [] then Err(Unrecognized(argv)) else Ok(st.selectorMap)
  }

  /** A failure on a prefix of the arguments is the failure of the whole loop. */
  lemma {:induction false} ParseArgsFailsEarly(argv: seq<string>, n: nat)
    requires n <= |argv| && ParseArgs(argv[..n]).Err?
    ensures ParseArgs(argv) == ParseArgs(argv[..n])
    decreases |argv| - n
  {
    if n < |argv| {
      assert argv[..n + 1][..n] == argv[..n];
      ParseArgsFailsEarly(argv, n + 1);
    } else {
      assert argv[..n] == argv;
    }
  }

  /** `get_selector_map`, with `parser.error` and the unpack error returned as errors. */
  method GetSelectorMap(argv: seq<string>) returns (r: Result<map<string, string>, ArgError>)
    ensures r == SelectorMap(argv)
  {
    var selectorMap: map<string, string> := map[];
    var leftovers: seq<string> := [];
    for i := 0 to |argv|
      invariant ParseArgs(argv[..i]) == Ok(Parse(selectorMap, leftovers))
    {
      assert argv[..i + 1][..i] == argv[..i];
      var arg := argv[i];
      if !(MARKER <= arg) || '=' !in arg {
        leftovers := leftovers + [arg];
      }
      var pieces := SplitBy(AfterMarker(arg), IsEquals);
      if |pieces| != 2 {
        ParseArgsFailsEarly(argv, i + 1);
        return Err(Unpack(arg));
      }
      selectorMap := selectorMap[pieces[0] := pieces[1]];
    }
    assert argv[..|argv|] == argv;
    if leftovers != [] {
      return Err(Unrecognized(argv));
    }
    return Ok(selectorMap);
  }

  // ------------------------------------------------------------ properties

  /** The argument that selects `value` for `key`. */
  function Selection(key: string, value: string): string {
    MARKER + key + "=" + value
  }

  function SelectorArg(kv: (string, string)): string {
    Selection(kv.0, kv.1)
  }

  /** A well-formed selector argument: the marker, a key, one `=` and a value, neither holding `=`. */
  ghost predicate IsSelection(arg: string) {
    exists k: string, v: string ::
      NoneIn(k, IsEquals) && NoneIn(v, IsEquals) && arg == Selection(k, v)
  }

  /** A well-formed argument is kept and unpacks to its key and value. */
  lemma SelectionUnpacks(k: string, v: string)
    requires NoneIn(k, IsEquals) && NoneIn(v, IsEquals)
    ensures IsSelectorArg(Selection(k, v))
    ensures Assignment(Selection(k, v)) == Some((k, v))
  {
    var arg := Selection(k, v);
    assert arg[..|MARKER|] == MARKER;
    assert arg[|MARKER| + |k|] == '=';
    assert AfterMarker(arg) == k + ['='] + v;
    SplitByAt(k, '=', v, IsEquals);
    SplitByNoSep(v, IsEquals);
  }

  /** A kept argument that unpacks is the selection of what it unpacks to. */
  lemma UnpackedSelection(arg: string)
    requires IsSelectorArg(arg) && Assignment(arg).Some?
    ensures var kv := Assignment(arg).value;
      NoneIn(kv.0, IsEquals) && NoneIn(kv.1, IsEquals) && arg == Selection(kv.0, kv.1)
  {
    var tail := AfterMarker(arg);
    SplitByTwo(tail, IsEquals);
    assert arg == MARKER + tail;
  }

  /** An argument is kept and unpacks exactly when it is well formed. */
  lemma WellFormedIffSelection(arg: string)
    ensures IsSelectorArg(arg) && Assignment(arg).Some? <==> IsSelection(arg)
  {
    if IsSelection(arg) {
      var k: string, v: string :| NoneIn(k, IsEquals) && NoneIn(v, IsEquals) && arg == Selection(k, v);
      SelectionUnpacks(k, v);
    }
    if IsSelectorArg(arg) && Assignment(arg).Some? {
      UnpackedSelection(arg);
      var kv := Assignment(arg).value;
      assert NoneIn(kv.0, IsEquals) && NoneIn(kv.1, IsEquals) && arg == Selection(kv.0, kv.1);
    }
  }

  /** The loop fails exactly when some argument does not unpack. */
  lemma {:induction false} ParseArgsOkIff(argv: seq<string>)
    ensures ParseArgs(argv).Ok? <==> forall i :: 0 <= i < |argv| ==> Assignment(argv[i]).Some?
  {
    if argv != [] {
      var init, arg := argv[..|argv| - 1], argv[|argv| - 1];
      ParseArgsOkIff(init);
      assert argv == init + [arg];
      if ParseArgs(init).Ok? {
        assert ParseArgs(argv) == ParseStep(ParseArgs(init).value, arg);
        assert ParseArgs(argv).Ok? <==> Assignment(arg).Some?;
      } else {
        var i :| 0 <= i < |init| && Assignment(init[i]).None?;
        assert argv[i] == init[i];
      }
    }
  }

  /** When the loop completes, nothing is left over exactly when every argument is kept. */
  lemma {:induction false} ParseArgsLeftovers(argv: seq<string>)
    requires ParseArgs(argv).Ok?
    ensures ParseArgs(argv).value.leftovers == [] <==> forall i :: 0 <= i < |argv| ==> IsSelectorArg(argv[i])
  {
    if argv != [] {
      var init, arg := argv[..|argv| - 1], argv[|argv| - 1];
      ParseArgsLeftovers(init);
      var st := ParseArgs(init).value;
      assert ParseArgs(argv) == ParseStep(st, arg);
      var allKept := forall i :: 0 <= i < |argv| ==> IsSelectorArg(argv[i]);
      var initKept := forall i :: 0 <= i < |init| ==> IsSelectorArg(init[i]);
      assert allKept <==> initKept && IsSelectorArg(arg) by {
        assert forall i :: 0 <= i < |init| ==> init[i] == argv[i];
      }
      if IsSelectorArg(arg) {
        assert ParseArgs(argv).value.leftovers == st.leftovers;
      } else {
        assert ParseArgs(argv).value.leftovers == st.leftovers + [arg];
      }
    }
  }

  /**
   * `get_selector_map` returns a map exactly when every argument is a
   * well-formed selector argument; any other argument makes it fail.
   */
  lemma SelectorMapOkIff(argv: seq<string>)
    ensures SelectorMap(argv).Ok? <==> forall i :: 0 <= i < |argv| ==> IsSelection(argv[i])
  {
    ParseArgsOkIff(argv);
    if ParseArgs(argv).Ok? {
      ParseArgsLeftovers(argv);
    }
    forall i | 0 <= i < |argv| {
      WellFormedIffSelection(argv[i]);
    }
  }

  /** No arguments, no selectors. */
  lemma NoArgumentsNoSelectors()
    ensures SelectorMap([]) == Ok(map[])
  {
  }

  /** Python's `dict(pairs)`: each key with the value of its last pair. */
  function Assigned(pairs: seq<(string, string)>): map<string, string> {
    if pairs == [] then map[]
    else
      var kv := pairs[|pairs| - 1];
      Assigned(pairs[..|pairs| - 1])[kv.0 := kv.1]
  }

  function KeyOf(kv: (string, string)): string {
    kv.0
  }

  /** The keys of `dict(pairs)` are the keys of the pairs. */
  lemma {:induction false} AssignedKeys(pairs: seq<(string, string)>)
    ensures forall k :: k in Assigned(pairs) <==> k in Map(pairs, KeyOf)
  {
    if pairs != [] {
      var init, kv := pairs[..|pairs| - 1], pairs[|pairs| - 1];
      AssignedKeys(init);
      assert pairs == init + [kv];
      MapSnoc(init, kv, KeyOf);
    }
  }

  /** A key's value in `dict(pairs)` is that of the last pair naming it. */
  lemma {:induction false} AssignedLastWins(pairs: seq<(string, string)>, i: nat)
    requires i < |pairs| && pairs[i].0 !in Map(pairs[i + 1..], KeyOf)
    ensures pairs[i].0 in Assigned(pairs) && Assigned(pairs)[pairs[i].0] == pairs[i].1
  {
    var init, kv := pairs[..|pairs| - 1], pairs[|pairs| - 1];
    if i < |pairs| - 1 {
      assert init[i + 1..] == pairs[i + 1..][..|pairs| - 2 - i];
      assert kv == pairs[i + 1..][|pairs| - 2 - i];
      AssignedLastWins(init, i);
    }
  }

  /** Well-formed arguments give the map `dict` makes of their keys and values. */
  lemma {:induction false} SelectorArgsMap(pairs: seq<(string, string)>)
    requires forall i :: 0 <= i < |pairs| ==> NoneIn(pairs[i].0, IsEquals) && NoneIn(pairs[i].1, IsEquals)
    ensures SelectorMap(Map(pairs, SelectorArg)) == Ok(Assigned(pairs))
  {
    SelectorArgsParse(pairs);
  }

  lemma {:induction false} SelectorArgsParse(pairs: seq<(string, string)>)
    requires forall i :: 0 <= i < |pairs| ==> NoneIn(pairs[i].0, IsEquals) && NoneIn(pairs[i].1, IsEquals)
    ensures ParseArgs(Map(pairs, SelectorArg)) == Ok(Parse(Assigned(pairs), []))
  {
    if pairs != [] {
      var init, kv := pairs[..|pairs| - 1], pairs[|pairs| - 1];
      assert forall i :: 0 <= i < |init| ==> init[i] == pairs[i];
      SelectorArgsParse(init);
      assert pairs == init + [kv];
      SelectorArgsSnoc(init, kv);
    }
  }

  /** One more well-formed argument adds its key and value and leaves nothing over. */
  lemma SelectorArgsSnoc(init: seq<(string, string)>, kv: (string, string))
    requires ParseArgs(Map(init, SelectorArg)) == Ok(Parse(Assigned(init), []))
    requires NoneIn(kv.0, IsEquals) && NoneIn(kv.1, IsEquals)
    ensures ParseArgs(Map(init + [kv], SelectorArg)) == Ok(Parse(Assigned(init + [kv]), []))
  {
    var pairs := init + [kv];
    MapSnoc(init, kv, SelectorArg);
    var argv := Map(pairs, SelectorArg);
    assert argv[..|argv| - 1] == Map(init, SelectorArg);
    assert pairs[..|pairs| - 1] == init;
    SelectionUnpacks(kv.0, kv.1);
  }

  /** A later argument for a key overrides an earlier one. */
  lemma LaterSelectorWins(argv: seq<string>, k: string, v: string)
    requires SelectorMap(argv).Ok? && NoneIn(k, IsEquals) && NoneIn(v, IsEquals)
    ensures SelectorMap(argv + [Selection(k, v)]) == Ok(SelectorMap(argv).value[k := v])
  {
    var argv' := argv + [Selection(k, v)];
    assert argv'[..|argv'| - 1] == argv;
    SelectionUnpacks(k, v);
  }
}
