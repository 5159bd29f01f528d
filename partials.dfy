/**
 * Fragment files ("partials"): the selector encoded in a file name, the
 * cleaned views of a fragment's text, and the selection of the fragments
 * that make up a build (i3configger/partials.py).
 */
module Partials {
  import opened Wrappers
  import opened Text
  import opened Seqs
  import opened Ordering

  const COMMENT_MARK := "#"
  const END_OF_LINE_COMMENT_MARK := " # "
  const DEFAULT_NAME := "default"
  const DEFAULT_MARKER := "# i3configger default"

  datatype Error =
    | NotAllSelectorsProcessed(remaining: map<string, string>)  // ConfigError raised by select
    | NoContent                                                 // raised by get_content
    | NoPartialsFound                                           // raised by create

  /**
   * One fragment file, named `name`, with the selectors computed from its
   * name when it was created. `raw` is its text as read from disk; `joined`
   * is that text after line continuations have been joined, which the model
   * takes as given rather than computing it.
   */
  datatype Partial = Partial(name: string, selectors: seq<string>, raw: string, joined: string) {

    predicate Conditional() {
      |selectors| > 1
    }

    function Key(): Option<string> {
      if Conditional() then Some(selectors[0]) else None
    }

    function Value(): Option<string> {
      if Conditional() then Some(selectors[1]) else None
    }

    /** `isDefault`: the value is `default`, or the text carries the default marker. */
    function IsDefault(): (r: bool)
      ensures Contains(raw, DEFAULT_MARKER) ==> r
      ensures Conditional() && selectors[1] == DEFAULT_NAME ==> r
      ensures !Conditional() ==> (r <==> Contains(raw, DEFAULT_MARKER))
      ensures r ==> Contains(raw, DEFAULT_MARKER) || (Conditional() && selectors[1] == DEFAULT_NAME)
    {
      Value() == Some(DEFAULT_NAME) || Contains(raw, DEFAULT_MARKER)
    }

    /** The filtered text under a banner naming the file, or "" when nothing is left. */
    function Display(setMark: string): string {
      var f := Filtered(joined, setMark);
      if f == "" then "" else "### " + name + " ###\n" + f + "\n\n"
    }
  }

  /** `Partial.__init__`: the selectors are the file stem split at every dot. */
  function NewPartial(name: string, raw: string, joined: string): Partial {
    Partial(name, SplitBy(Stem(name), IsDot), raw, joined)
  }

  /**
   * A new partial is conditional exactly when its stem has a dot; then its
   * key is the text before the first dot and its value the next dot-free
   * segment.
   */
  lemma SelectorsFromStem(name: string, raw: string, joined: string)
    ensures var p, stem := NewPartial(name, raw, joined), Stem(name);
      && (p.Conditional() <==> '.' in stem)
      && (!p.Conditional() ==> p.Key() == None && p.Value() == None)
      && (p.Conditional() ==>
            var k, v := p.Key().value, p.Value().value;
            var n := |k| + 1 + |v|;
            && '.' !in k && '.' !in v && n <= |stem|
            && k == stem[..|k|] && stem[|k|] == '.' && v == stem[|k| + 1..n]
            && (n == |stem| || stem[n] == '.'))
  {
    DotSplit(Stem(name));
  }

  /** Splitting a text at dots: the first two pieces and where they lie. */
  lemma DotSplit(stem: string)
    ensures var r := SplitBy(stem, IsDot);
      && (|r| > 1 <==> '.' in stem)
      && (|r| > 1 ==>
            var n := |r[0]| + 1 + |r[1]|;
            && '.' !in r[0] && '.' !in r[1] && n <= |stem|
            && r[0] == stem[..|r[0]|] && stem[|r[0]|] == '.' && r[1] == stem[|r[0]| + 1..n]
            && (n == |stem| || stem[n] == '.'))
  {
    var r := SplitBy(stem, IsDot);
    SplitByHead(stem, IsDot);
    if '.' in stem {
      var i :| 0 <= i < |stem| && stem[i] == '.';
      assert IsDot(stem[i]);
    }
    if |r| > 1 {
      SplitByFirstSep(stem, IsDot);
      SplitBySecondPiece(stem, IsDot);
      SplitBySecondEnd(stem, IsDot);
      SplitByNoneIn(stem, IsDot);
      assert NoneIn(r[0], IsDot) && NoneIn(r[1], IsDot);
    }
  }

  /** A line that `filtered` keeps: not blank, and stripped it starts neither with the set marker nor with `#`. */
  predicate KeptByFiltered(line: string, setMark: string) {
    var l := Strip(line);
    l != "" && !(setMark <= l) && !(COMMENT_MARK <= l)
  }

  /** A line that `payload` keeps: not blank, and stripped it does not start with `#`. */
  predicate KeptByPayload(line: string) {
    var l := Strip(line);
    l != "" && !(COMMENT_MARK <= l)
  }

  /**
   * The lines `filtered` keeps: exactly the kept lines of the text, each
   * unchanged and as often as it occurs, in their original order.
   */
  function FilteredLines(joined: string, setMark: string): (r: seq<string>)
    ensures IsSubsequence(r, Lines(joined))
    ensures forall l :: multiset(r)[l] == if KeptByFiltered(l, setMark) then multiset(Lines(joined))[l] else 0
    ensures forall k :: 0 <= k < |r| ==> !Blank(r[k])
  {
    var r := Filter(Lines(joined), l => KeptByFiltered(l, setMark));
    FilterKeepsExactly(Lines(joined), l => KeptByFiltered(l, setMark));
    forall k | 0 <= k < |r| ensures !Blank(r[k]) {
      KeptIsNotBlank(r[k], setMark);
    }
    r
  }

  lemma KeptIsNotBlank(line: string, setMark: string)
    requires KeptByFiltered(line, setMark)
    ensures !Blank(line)
  {
    StripEmptyIffBlank(line);
  }

  /** `Partial.filtered`: the kept lines joined with newlines. */
  function Filtered(joined: string, setMark: string): string {
    Join(FilteredLines(joined, setMark), "\n")
  }

  /** `line.rsplit(" # ", 1)[0]`: the line cut at the last end-of-line comment mark. */
  function CutComment(line: string): string {
    BeforeLast(line, END_OF_LINE_COMMENT_MARK)
  }

  /** The lines of `payload`, accumulated in the order of the text. */
  function PayloadLines(lines: seq<string>): seq<string> {
    if lines == [] then []
    else
      var init := PayloadLines(lines[..|lines| - 1]);
      var line := lines[|lines| - 1];
      if KeptByPayload(line) then init + [CutComment(line)] else init
  }

  /** `Partial.payload`. */
  function Payload(joined: string): string {
    Join(PayloadLines(Lines(joined)), "\n")
  }

  /**
   * The payload lines are the non-blank, non-comment lines in their order,
   * each cut at its last end-of-line comment mark.
   */
  lemma {:induction false} PayloadIsCutFilter(lines: seq<string>)
    ensures PayloadLines(lines) == Map(Filter(lines, KeptByPayload), CutComment)
  {
    if lines != [] {
      var init := lines[..|lines| - 1];
      PayloadIsCutFilter(init);
      var f := Filter(init, KeptByPayload);
      if KeptByPayload(lines[|lines| - 1]) {
        assert Filter(lines, KeptByPayload) == f + [lines[|lines| - 1]];
        MapSnoc(f, lines[|lines| - 1], CutComment);
      }
    }
  }

  /** `display` is "" exactly when `filtered` keeps no line; otherwise the banner precedes the filtered text. */
  lemma DisplayEmptyIffNothingKept(p: Partial, setMark: string)
    ensures p.Display(setMark) == "" <==> FilteredLines(p.joined, setMark) == []
    ensures p.Display(setMark) != "" ==>
      p.Display(setMark) == "### " + p.name + " ###\n" + Join(FilteredLines(p.joined, setMark), "\n") + "\n\n"
  {
    JoinEmptyIffNone(FilteredLines(p.joined, setMark), "\n");
  }

  predicate Matches(p: Partial, key: string, value: string) {
    p.Key() == Some(key) && p.Value() == Some(value)
  }

  /** `find`: the first partial with the given key and value, if there is one. */
  function Find(prts: seq<Partial>, key: string, value: string): (r: Option<Partial>)
    ensures r.None? <==> forall i :: 0 <= i < |prts| ==> !Matches(prts[i], key, value)
    ensures r.Some? ==>
      exists i :: 0 <= i < |prts| && prts[i] == r.value && Matches(r.value, key, value)
        && forall j :: 0 <= j < i ==> !Matches(prts[j], key, value)
  {
    if prts == [] then None
    else if Matches(prts[0], key, value) then Some(prts[0])
    else
      var r := Find(prts[1..], key, value);
      assert forall i :: 1 <= i < |prts| ==> prts[i] == prts[1..][i - 1];
      if r.Some? then
        var i :| 0 <= i < |prts[1..]| && prts[1..][i] == r.value && Matches(r.value, key, value)
          && forall j :: 0 <= j < i ==> !Matches(prts[1..][j], key, value);
        assert prts[i + 1] == r.value;
        r
      else r
  }

  /** The selector dictionary of the caller, which `Select` consumes in place. */
  class Selector {
    var entries: map<string, string>

    constructor(entries: map<string, string>)
      ensures this.entries == entries
    {
      this.entries := entries;
    }
  }

  /** What `select` returns: one partial bare, any other number as a list. */
  datatype Selected = One(partial: Partial) | Many(partials: seq<Partial>) {
    function Items(): seq<Partial> {
      if One? then [partial] else partials
    }
  }

  /** The state of the selection loop: the partials taken so far and the selector left. */
  datatype Scan = Scan(selected: seq<Partial>, remaining: map<string, string>)

  /** The inner `_select`: take the partial and consume its key from the selector. */
  function Take(acc: Scan, p: Partial): Scan {
    var remaining :=
      if p.Key().Some? && p.Key().value in acc.remaining then acc.remaining - {p.Key().value}
      else acc.remaining;
    Scan(acc.selected + [p], remaining)
  }

  /** One iteration of the loop of `select`. */
  function Step(acc: Scan, p: Partial, excludes: seq<string>, conditionals: bool, defaults: bool): Scan {
    if p.Conditional() then
      var key := p.Key().value;
      if |excludes| > 0 && key in excludes then acc
      else if |acc.remaining| > 0 && key in acc.remaining && p.Value() == Some(acc.remaining[key]) then Take(acc, p)
      else if defaults && p.IsDefault() then Take(acc, p)
      else acc
    else if conditionals then Take(acc, p)
    else acc
  }

  /** The selection loop run over `partials` from a selector `selector`. */
  function SelectScan(partials: seq<Partial>, selector: map<string, string>, excludes: seq<string>,
                      conditionals: bool, defaults: bool): Scan
  {
    if partials == [] then Scan([], selector)
    else
      Step(SelectScan(partials[..|partials| - 1], selector, excludes, conditionals, defaults),
           partials[|partials| - 1], excludes, conditionals, defaults)
  }

  /** The nested `_select` of `select`: appends the partial and consumes its key. */
  method Pick(partial: Partial, selected: seq<Partial>, selector: Selector) returns (selected': seq<Partial>)
    modifies selector
    ensures Scan(selected', selector.entries) == Take(Scan(selected, old(selector.entries)), partial)
  {
    selected' := selected + [partial];
    if partial.Key().Some? && partial.Key().value in selector.entries {
      selector.entries := selector.entries - {partial.Key().value};
    }
  }

  /** What `select` returns or raises once the loop is done. */
  function SelectOutcome(scan: Scan): Result<Selected, Error> {
    if |scan.remaining| > 0 then Err(NotAllSelectorsProcessed(scan.remaining))
    else if |scan.selected| == 1 then Ok(One(scan.selected[0]))
    else Ok(Many(scan.selected))
  }

  /**
   * `select`: picks partials in their order, consuming the caller's selector
   * in place; fails if a selector key is left over.
   */
  method Select(partials: seq<Partial>, selector: Selector, excludes: seq<string>,
                conditionals: bool, defaults: bool)
    returns (r: Result<Selected, Error>)
    modifies selector
    ensures var scan := SelectScan(partials, old(selector.entries), excludes, conditionals, defaults);
      selector.entries == scan.remaining && r == SelectOutcome(scan)
  {
    var selected := SelectLoop(partials, selector, excludes, conditionals, defaults);
    if |selector.entries| > 0 {
      r := Err(NotAllSelectorsProcessed(selector.entries));
    } else if |selected| == 1 {
      r := Ok(One(selected[0]));
    } else {
      r := Ok(Many(selected));
    }
  }

  /** The loop of `select`: the partials it picks, with the selector consumed in place. */
  method SelectLoop(partials: seq<Partial>, selector: Selector, excludes: seq<string>,
                    conditionals: bool, defaults: bool)
    returns (selected: seq<Partial>)
    modifies selector
    ensures Scan(selected, selector.entries) == SelectScan(partials, old(selector.entries), excludes, conditionals, defaults)
  {
    ghost var sel0 := selector.entries;
    selected := [];
    var i := 0;
    while i < |partials|
      invariant 0 <= i <= |partials|
      invariant selected == SelectScan(partials[..i], sel0, excludes, conditionals, defaults).selected
      invariant selector.entries == SelectScan(partials[..i], sel0, excludes, conditionals, defaults).remaining
    {
      var partial := partials[i];
      ghost var before := Scan(selected, selector.entries);
      assert SelectScan(partials[..i + 1], sel0, excludes, conditionals, defaults)
          == Step(before, partial, excludes, conditionals, defaults) by {
        assert partials[..i + 1][..i] == partials[..i];
      }
      if partial.Conditional() {
        var key := partial.Key().value;
        if |excludes| > 0 && key in excludes {
          assert Step(before, partial, excludes, conditionals, defaults) == before;
          i := i + 1;
          continue;
        }
        if |selector.entries| > 0 && key in selector.entries && partial.Value() == Some(selector.entries[key]) {
          assert Step(before, partial, excludes, conditionals, defaults) == Take(before, partial);
          selected := Pick(partial, selected, selector);
        } else if defaults && partial.IsDefault() {
          assert Step(before, partial, excludes, conditionals, defaults) == Take(before, partial);
          selected := Pick(partial, selected, selector);
        } else {
          assert Step(before, partial, excludes, conditionals, defaults) == before;
        }
      } else if conditionals {
        assert Step(before, partial, excludes, conditionals, defaults) == Take(before, partial);
        selected := Pick(partial, selected, selector);
      } else {
        assert Step(before, partial, excludes, conditionals, defaults) == before;
      }
      i := i + 1;
    }
    assert partials[..|partials|] == partials;
  }


  /** Some partial of `ps` has the key `key`. */
  predicate KeyTaken(ps: seq<Partial>, key: string) {
    exists i :: 0 <= i < |ps| && ps[i].Key() == Some(key)
  }

  lemma KeyTakenSnoc(ps: seq<Partial>, p: Partial, key: string)
    ensures KeyTaken(ps + [p], key) <==> KeyTaken(ps, key) || p.Key() == Some(key)
  {
    var qs := ps + [p];
    if KeyTaken(qs, key) && p.Key() != Some(key) {
      var i :| 0 <= i < |qs| && qs[i].Key() == Some(key);
      assert i < |ps| && ps[i] == qs[i];
    }
    if KeyTaken(ps, key) {
      var i :| 0 <= i < |ps| && ps[i].Key() == Some(key);
      assert qs[i] == ps[i];
    }
    if p.Key() == Some(key) {
      assert qs[|ps|] == p;
    }
  }

  /** `select` keeps the order of its input. */
  lemma {:induction false} SelectKeepsOrder(ps: seq<Partial>, sel: map<string, string>, ex: seq<string>, c: bool, d: bool)
    ensures IsSubsequence(SelectScan(ps, sel, ex, c, d).selected, ps)
  {
    if ps != [] {
      var init := ps[..|ps| - 1];
      SelectKeepsOrder(init, sel, ex, c, d);
      var s := SelectScan(init, sel, ex, c, d).selected;
      var s' := SelectScan(ps, sel, ex, c, d).selected;
      if s' != s {
        assert s' == s + [ps[|ps| - 1]] && s'[..|s'| - 1] == s;
      } else if s != [] {
        assert IsSubsequence(s, ps);
      }
    }
  }

  /**
   * The selector left over is the caller's selector without the keys of the
   * selected partials: each selected partial consumes its key.
   */
  lemma {:induction false} SelectConsumesKeys(ps: seq<Partial>, sel: map<string, string>, ex: seq<string>, c: bool, d: bool)
    ensures var scan := SelectScan(ps, sel, ex, c, d);
      && (forall k :: k in scan.remaining <==> k in sel && !KeyTaken(scan.selected, k))
      && (forall k :: k in scan.remaining ==> scan.remaining[k] == sel[k])
  {
    if ps != [] {
      var init := ps[..|ps| - 1];
      var p := ps[|ps| - 1];
      SelectConsumesKeys(init, sel, ex, c, d);
      var s := SelectScan(init, sel, ex, c, d);
      var s' := SelectScan(ps, sel, ex, c, d);
      assert s' == Step(s, p, ex, c, d);
      if s'.selected != s.selected {
        assert s' == Take(s, p);
        forall k ensures KeyTaken(s'.selected, k) <==> KeyTaken(s.selected, k) || p.Key() == Some(k) {
          KeyTakenSnoc(s.selected, p, k);
        }
      }
    }
  }

  /**
   * Every selected partial is wanted: an unconditional one only when
   * `conditionals` is set, a conditional one only when its key is not
   * excluded and it is either a default (with `defaults` set) or the value
   * the caller's selector asks for its key.
   */
  lemma {:induction false} SelectOnlyWanted(ps: seq<Partial>, sel: map<string, string>, ex: seq<string>, c: bool, d: bool)
    ensures forall p :: p in SelectScan(ps, sel, ex, c, d).selected ==>
      if p.Conditional() then
        && p.Key().value !in ex
        && ((d && p.IsDefault()) || (p.Key().value in sel && p.Value() == Some(sel[p.Key().value])))
      else c
  {
    if ps != [] {
      var init := ps[..|ps| - 1];
      SelectOnlyWanted(init, sel, ex, c, d);
      SelectConsumesKeys(init, sel, ex, c, d);
    }
  }

  /** Only partials of the input are selected. */
  lemma {:induction false} SelectSubset(ps: seq<Partial>, sel: map<string, string>, ex: seq<string>, c: bool, d: bool)
    ensures forall p :: p in SelectScan(ps, sel, ex, c, d).selected ==> p in ps
  {
    if ps != [] {
      SelectSubset(ps[..|ps| - 1], sel, ex, c, d);
    }
  }

  /** What was selected from a prefix of the input stays selected, in front. */
  lemma {:induction false} SelectPrefix(ps: seq<Partial>, m: nat, sel: map<string, string>, ex: seq<string>, c: bool, d: bool)
    requires m <= |ps|
    ensures SelectScan(ps[..m], sel, ex, c, d).selected <= SelectScan(ps, sel, ex, c, d).selected
    decreases |ps|
  {
    if m < |ps| {
      var init := ps[..|ps| - 1];
      assert init[..m] == ps[..m];
      SelectPrefix(init, m, sel, ex, c, d);
    } else {
      assert ps[..m] == ps;
    }
  }

  /** An unconditional partial is selected exactly when `conditionals` is set. */
  lemma SelectUnconditional(ps: seq<Partial>, sel: map<string, string>, ex: seq<string>, c: bool, d: bool, i: nat)
    requires i < |ps| && !ps[i].Conditional()
    ensures ps[i] in SelectScan(ps, sel, ex, c, d).selected <==> c
  {
    if c {
      assert ps[..i + 1][..i] == ps[..i];
      assert ps[i] in SelectScan(ps[..i + 1], sel, ex, c, d).selected;
      SelectPrefix(ps, i + 1, sel, ex, c, d);
    } else {
      SelectOnlyWanted(ps, sel, ex, c, d);
    }
  }

  /** With `defaults` set, a default partial whose key is not excluded is selected. */
  lemma SelectTakesDefault(ps: seq<Partial>, sel: map<string, string>, ex: seq<string>, c: bool, d: bool, i: nat)
    requires i < |ps| && ps[i].Conditional() && ps[i].Key().value !in ex && d && ps[i].IsDefault()
    ensures ps[i] in SelectScan(ps, sel, ex, c, d).selected
  {
    assert ps[..i + 1][..i] == ps[..i];
    assert ps[i] in SelectScan(ps[..i + 1], sel, ex, c, d).selected;
    SelectPrefix(ps, i + 1, sel, ex, c, d);
  }

  /**
   * Before the first partial of a key that could claim the key, no partial
   * has consumed that key.
   */
  lemma NoEarlierClaim(ps: seq<Partial>, sel: map<string, string>, ex: seq<string>, c: bool, d: bool, i: nat)
    requires i < |ps| && ps[i].Conditional()
    requires ps[i].Key().value in sel
    requires forall j :: 0 <= j < i && ps[j].Key() == ps[i].Key() ==>
      !(d && ps[j].IsDefault()) && ps[j].Value() != Some(sel[ps[i].Key().value])
    ensures !KeyTaken(SelectScan(ps[..i], sel, ex, c, d).selected, ps[i].Key().value)
  {
    var before := SelectScan(ps[..i], sel, ex, c, d);
    var key := ps[i].Key().value;
    if KeyTaken(before.selected, key) {
      var m :| 0 <= m < |before.selected| && before.selected[m].Key() == Some(key);
      var q := before.selected[m];
      SelectSubset(ps[..i], sel, ex, c, d);
      SelectOnlyWanted(ps[..i], sel, ex, c, d);
      assert false;
    }
  }

  /**
   * A partial whose key is still in the selector when the loop reaches it,
   * with the value asked for, is selected.
   */
  lemma SelectWhenRequested(ps: seq<Partial>, sel: map<string, string>, ex: seq<string>, c: bool, d: bool, i: nat)
    requires i < |ps| && ps[i].Conditional() && ps[i].Key().value !in ex
    requires var before := SelectScan(ps[..i], sel, ex, c, d);
      ps[i].Key().value in before.remaining && ps[i].Value() == Some(before.remaining[ps[i].Key().value])
    ensures ps[i] in SelectScan(ps, sel, ex, c, d).selected
  {
    assert ps[..i + 1][..i] == ps[..i];
    assert ps[i] in SelectScan(ps[..i + 1], sel, ex, c, d).selected;
    SelectPrefix(ps, i + 1, sel, ex, c, d);
  }

  /**
   * A partial that matches the caller's selector is selected when it is the
   * first of its key that could claim the key: no earlier partial of that key
   * is a default (with `defaults` set) or matches the selector too.
   */
  lemma SelectHonoursFirstRequest(ps: seq<Partial>, sel: map<string, string>, ex: seq<string>, c: bool, d: bool, i: nat)
    requires i < |ps| && ps[i].Conditional()
    requires ps[i].Key().value !in ex && ps[i].Key().value in sel && ps[i].Value() == Some(sel[ps[i].Key().value])
    requires forall j :: 0 <= j < i && ps[j].Key() == ps[i].Key() ==>
      !(d && ps[j].IsDefault()) && ps[j].Value() != ps[i].Value()
    ensures ps[i] in SelectScan(ps, sel, ex, c, d).selected
  {
    NoEarlierClaim(ps, sel, ex, c, d, i);
    SelectConsumesKeys(ps[..i], sel, ex, c, d);
    SelectWhenRequested(ps, sel, ex, c, d, i);
  }

  /** `get_content` text: the displays of the selected partials, concatenated. */
  function Displays(ps: seq<Partial>, setMark: string): string {
    Join(Map(ps, (p: Partial) => p.Display(setMark)), "")
  }

  /**
   * `get_content`: selects with conditionals and defaults on, fails when the
   * selection is empty, and returns the concatenated displays; a single
   * selection yields the same text as a one-element list would.
   */
  method GetContent(prts: seq<Partial>, selector: Selector, excludes: seq<string>, setMark: string)
    returns (r: Result<string, Error>)
    modifies selector
    ensures var scan := SelectScan(prts, old(selector.entries), excludes, true, true);
      && selector.entries == scan.remaining
      && (|scan.remaining| > 0 ==> r == Err(NotAllSelectorsProcessed(scan.remaining)))
      && (|scan.remaining| == 0 && scan.selected == [] ==> r == Err(NoContent))
      && (|scan.remaining| == 0 && scan.selected != [] ==> r == Ok(Displays(scan.selected, setMark)))
  {
    var selected := Select(prts, selector, excludes, true, true);
    if selected.Err? {
      return Err(selected.error);
    }
    match selected.value
    case One(p) =>
      r := Ok(p.Display(setMark));
    case Many(ps) =>
      if ps == [] {
        return Err(NoContent);
      }
      r := Ok(Displays(ps, setMark));
  }

  function NameKey(p: Partial): seq<string> {
    [p.name]
  }

  /** The sorting and emptiness check of `create`, given the partials the glob found. */
  function Create(found: seq<Partial>): (r: Result<seq<Partial>, Error>)
    ensures r.Err? <==> found == []
    ensures r.Ok? ==> multiset(r.value) == multiset(found)
    ensures r.Ok? ==> forall i, j :: 0 <= i < j < |r.value| ==> !StrLt(r.value[j].name, r.value[i].name)
  {
    if found == [] then Err(NoPartialsFound)
    else
      var sorted := SortBy(found, NameKey);
      forall i, j | 0 <= i < j < |sorted| ensures !StrLt(sorted[j].name, sorted[i].name) {
        assert !PathLt([sorted[j].name], [sorted[i].name]);
        StrLtAsymmetric(sorted[j].name, sorted[i].name);
      }
      Ok(sorted)
  }
  // ------------------------------------------- defaults and requested keys

  /**
   * As written, `select` takes a default partial even when the caller's
   * selector names its key: a default listed before the requested partial
   * consumes the key, so the requested partial is dropped and the call
   * still succeeds.
   */
  lemma DefaultShadowsRequest()
    ensures var dflt := Partial("bar.default.conf", ["bar", "default"], "", "");
      var zzz := Partial("bar.zzz.conf", ["bar", "zzz"], "", "");
      var scan := SelectScan([dflt, zzz], map["bar" := "zzz"], [], true, true);
      && scan.remaining == map[] && scan.selected == [dflt]
      && SelectScanIntended([dflt, zzz], map["bar" := "zzz"], [], true, true).selected == [zzz]
  {
    var dflt := Partial("bar.default.conf", ["bar", "default"], "", "");
    var zzz := Partial("bar.zzz.conf", ["bar", "zzz"], "", "");
    var sel := map["bar" := "zzz"];
    assert [dflt, zzz][..1] == [dflt] && [dflt][..0] == [];
    assert SelectScan([dflt], sel, [], true, true) == Scan([dflt], map[]);
    assert SelectScanIntended([dflt], sel, [], true, true) == Scan([], sel);
  }

  /**
   * As written, a default listed after the requested partial is taken as
   * well, since the requested partial has already consumed the key.
   */
  lemma DefaultJoinsRequest()
    ensures var dark := Partial("bar.dark.conf", ["bar", "dark"], "", "");
      var dflt := Partial("bar.default.conf", ["bar", "default"], "", "");
      var scan := SelectScan([dark, dflt], map["bar" := "dark"], [], true, true);
      && scan.remaining == map[] && scan.selected == [dark, dflt]
      && SelectScanIntended([dark, dflt], map["bar" := "dark"], [], true, true).selected == [dark]
  {
    var dark := Partial("bar.dark.conf", ["bar", "dark"], "", "");
    var dflt := Partial("bar.default.conf", ["bar", "default"], "", "");
    var sel := map["bar" := "dark"];
    assert [dark, dflt][..1] == [dark] && [dark][..0] == [];
    assert SelectScan([dark], sel, [], true, true) == Scan([dark], map[]);
    assert SelectScanIntended([dark], sel, [], true, true) == Scan([dark], map[]);
  }

  /** The corrected step: a default is taken only for a key the caller's selector does not name. */
  function StepIntended(acc: Scan, p: Partial, selector: map<string, string>, excludes: seq<string>,
                        conditionals: bool, defaults: bool): Scan
  {
    if p.Conditional() then
      var key := p.Key().value;
      if |excludes| > 0 && key in excludes then acc
      else if |acc.remaining| > 0 && key in acc.remaining && p.Value() == Some(acc.remaining[key]) then Take(acc, p)
      else if defaults && p.IsDefault() && key !in selector then Take(acc, p)
      else acc
    else if conditionals then Take(acc, p)
    else acc
  }

  /** The corrected selection loop. */
  function SelectScanIntended(partials: seq<Partial>, selector: map<string, string>, excludes: seq<string>,
                              conditionals: bool, defaults: bool): Scan
  {
    if partials == [] then Scan([], selector)
    else
      StepIntended(SelectScanIntended(partials[..|partials| - 1], selector, excludes, conditionals, defaults),
                   partials[|partials| - 1], selector, excludes, conditionals, defaults)
  }

  /** The corrected loop leaves the caller's selector without the keys of the selected partials. */
  lemma {:induction false} IntendedConsumesKeys(ps: seq<Partial>, sel: map<string, string>, ex: seq<string>, c: bool, d: bool)
    ensures var scan := SelectScanIntended(ps, sel, ex, c, d);
      && (forall k :: k in scan.remaining <==> k in sel && !KeyTaken(scan.selected, k))
      && (forall k :: k in scan.remaining ==> scan.remaining[k] == sel[k])
  {
    if ps != [] {
      var init := ps[..|ps| - 1];
      var p := ps[|ps| - 1];
      IntendedConsumesKeys(init, sel, ex, c, d);
      var s := SelectScanIntended(init, sel, ex, c, d);
      var s' := SelectScanIntended(ps, sel, ex, c, d);
      assert s' == StepIntended(s, p, sel, ex, c, d);
      if s'.selected != s.selected {
        assert s' == Take(s, p);
        forall k ensures KeyTaken(s'.selected, k) <==> KeyTaken(s.selected, k) || p.Key() == Some(k) {
          KeyTakenSnoc(s.selected, p, k);
        }
      }
    }
  }

  /**
   * Every partial the corrected loop selects comes from the input and is
   * wanted: a conditional one is not excluded and has the requested value
   * when the caller's selector names its key, and is a default (with
   * `defaults` set) when it does not.
   */
  lemma {:induction false} IntendedOnlyWanted(ps: seq<Partial>, sel: map<string, string>, ex: seq<string>, c: bool, d: bool)
    ensures forall p :: p in SelectScanIntended(ps, sel, ex, c, d).selected ==>
      && p in ps
      && if p.Conditional() then
           && p.Key().value !in ex
           && if p.Key().value in sel then p.Value() == Some(sel[p.Key().value]) else d && p.IsDefault()
         else c
  {
    if ps != [] {
      var init := ps[..|ps| - 1];
      IntendedOnlyWanted(init, sel, ex, c, d);
      IntendedConsumesKeys(init, sel, ex, c, d);
    }
  }

  /** What the corrected loop selects from a prefix stays selected. */
  lemma {:induction false} IntendedPrefix(ps: seq<Partial>, m: nat, sel: map<string, string>, ex: seq<string>, c: bool, d: bool)
    requires m <= |ps|
    ensures SelectScanIntended(ps[..m], sel, ex, c, d).selected <= SelectScanIntended(ps, sel, ex, c, d).selected
    decreases |ps|
  {
    if m < |ps| {
      var init := ps[..|ps| - 1];
      assert init[..m] == ps[..m];
      IntendedPrefix(init, m, sel, ex, c, d);
    } else {
      assert ps[..m] == ps;
    }
  }

  /** The corrected loop takes every default whose key is neither excluded nor requested. */
  lemma IntendedTakesDefault(ps: seq<Partial>, sel: map<string, string>, ex: seq<string>, c: bool, d: bool, i: nat)
    requires i < |ps| && ps[i].Conditional() && d && ps[i].IsDefault()
    requires ps[i].Key().value !in ex && ps[i].Key().value !in sel
    ensures ps[i] in SelectScanIntended(ps, sel, ex, c, d).selected
  {
    assert ps[..i + 1][..i] == ps[..i];
    assert ps[i] in SelectScanIntended(ps[..i + 1], sel, ex, c, d).selected;
    IntendedPrefix(ps, i + 1, sel, ex, c, d);
  }

  /**
   * The corrected loop takes the first partial with the requested value of
   * a requested key, whatever defaults precede it.
   */
  lemma IntendedHonoursRequest(ps: seq<Partial>, sel: map<string, string>, ex: seq<string>, c: bool, d: bool, i: nat)
    requires i < |ps| && ps[i].Conditional()
    requires ps[i].Key().value !in ex && ps[i].Key().value in sel && ps[i].Value() == Some(sel[ps[i].Key().value])
    requires forall j :: 0 <= j < i && ps[j].Key() == ps[i].Key() ==> ps[j].Value() != ps[i].Value()
    ensures ps[i] in SelectScanIntended(ps, sel, ex, c, d).selected
  {
    var key := ps[i].Key().value;
    var before := SelectScanIntended(ps[..i], sel, ex, c, d);
    IntendedConsumesKeys(ps[..i], sel, ex, c, d);
    if KeyTaken(before.selected, key) {
      var m :| 0 <= m < |before.selected| && before.selected[m].Key() == Some(key);
      IntendedOnlyWanted(ps[..i], sel, ex, c, d);
      assert false;
    }
    assert ps[..i + 1][..i] == ps[..i];
    assert ps[i] in SelectScanIntended(ps[..i + 1], sel, ex, c, d).selected;
    IntendedPrefix(ps, i + 1, sel, ex, c, d);
  }
}
