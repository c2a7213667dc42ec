/** Whole-utterance rewriting: applying one rule to every string of a speech
    sequence (processRule), and turning runs of synchronous commands into
    chains followed by a break of the chain's length
    (postProcessSynchronousCommands, eloquenceFix). */
module PostProcess {
  import opened Commands
  import opened Rules

  // ---- processRule ----

  /** The pattern's matches on every string, as finditer would give them. */
  ghost predicate ValidFinder(find: string -> seq<Span>) {
    forall s: string {:trigger find(s)} :: Matches(find(s), 0, |s|)
  }

  /** What processRule puts in place of one item. */
  function Expanded(rule: AudioRule, find: string -> seq<Span>, o: Oracle, x: Item): (r: seq<Item>)
    requires ValidFinder(find)
  {
    if x.Text? then ProcessString(rule, x.text, find(x.text), o) else [x]
  }

  /** processRule as a function of the input sequence. */
  function RuleApplied(items: seq<Item>, rule: AudioRule, find: string -> seq<Span>, o: Oracle): (r: seq<Item>)
    requires ValidFinder(find)
  {
    if items == [] then [] else Expanded(rule, find, o, items[0]) + RuleApplied(items[1..], rule, find, o)
  }

  /** processRule */
  method ProcessRule(items: seq<Item>, rule: AudioRule, find: string -> seq<Span>, o: Oracle) returns (r: seq<Item>)
    requires ValidFinder(find)
    ensures r == RuleApplied(items, rule, find, o)
  {
    r := [];
    var i := 0;
    while i < |items|
      invariant 0 <= i <= |items|
      invariant r + RuleApplied(items[i..], rule, find, o) == RuleApplied(items, rule, find, o)
    {
      RuleAppliedAt(items, i, rule, find, o);
      r := r + Expanded(rule, find, o, items[i]);
      i := i + 1;
    }
  }

  lemma RuleAppliedAt(items: seq<Item>, i: nat, rule: AudioRule, find: string -> seq<Span>, o: Oracle)
    requires ValidFinder(find) && i < |items|
    ensures RuleApplied(items[i..], rule, find, o)
         == Expanded(rule, find, o, items[i]) + RuleApplied(items[i + 1..], rule, find, o)
  {
    assert items[i..][1..] == items[i + 1..];
  }

  /** Applying a rule to a sequence is applying it to each part in turn: every
      string is replaced by what processString yields for it, and every
      command stays where it is. */
  lemma {:induction false} RuleAppliedAppend(a: seq<Item>, b: seq<Item>, rule: AudioRule, find: string -> seq<Span>, o: Oracle)
    requires ValidFinder(find)
    ensures RuleApplied(a + b, rule, find, o) == RuleApplied(a, rule, find, o) + RuleApplied(b, rule, find, o)
    decreases |a|
  {
    if a == [] {
      assert a + b == b;
    } else {
      assert (a + b)[0] == a[0];
      assert (a + b)[1..] == a[1..] + b;
      RuleAppliedAppend(a[1..], b, rule, find, o);
    }
  }

  /** A disabled rule leaves every sequence unchanged. */
  lemma {:induction false} RuleAppliedDisabled(items: seq<Item>, rule: AudioRule, find: string -> seq<Span>, o: Oracle)
    requires ValidFinder(find) && !rule.config.enabled
    ensures RuleApplied(items, rule, find, o) == items
    decreases |items|
  {
    if items != [] {
      RuleAppliedDisabled(items[1..], rule, find, o);
      assert [items[0]] + items[1..] == items;
    }
  }

  /** An enabled rule leaves no empty string in the sequence. */
  lemma {:induction false} RuleAppliedNoEmptyText(items: seq<Item>, rule: AudioRule, find: string -> seq<Span>, o: Oracle)
    requires ValidFinder(find) && rule.config.enabled
    ensures forall i | 0 <= i < |RuleApplied(items, rule, find, o)| :: RuleApplied(items, rule, find, o)[i] != Text([])
    decreases |items|
  {
    if items != [] {
      RuleAppliedNoEmptyText(items[1..], rule, find, o);
      var x := items[0];
      if !x.Text? {
        assert x != Text([]);
      }
    }
  }

  // ---- postProcessSynchronousCommands ----

  /** Every synchronous command of the sequence can report its duration. */
  predicate SyncSchedulable(items: seq<Item>) {
    forall i | 0 <= i < |items| :: IsSyncItem(items[i]) ==> Schedulable(items[i].command)
  }

  /** Drops every string that renders blank at the current symbol level. */
  function DropBlank(items: seq<Item>, o: Oracle): (r: seq<Item>)
    ensures forall i | 0 <= i < |r| :: r[i].Text? ==> !o.rendersBlank(r[i].text)
    ensures CommandsIn(r) == CommandsIn(items)
    ensures SyncSchedulable(items) ==> SyncSchedulable(r)
  {
    if items == [] then []
    else
      var rest := DropBlank(items[1..], o);
      if items[0].Text? && o.rendersBlank(items[0].text) then
        assert CommandsIn(items) == CommandsIn(items[1..]);
        rest
      else
        assert ([items[0]] + rest)[1..] == rest;
        assert SyncSchedulable(items) ==> IsSyncItem(items[0]) ==> Schedulable(items[0].command);
        [items[0]] + rest
  }

  /** DropBlank is a filter: it works on each part of a sequence separately,
      so everything it keeps stays in its order and place. */
  lemma {:induction false} DropBlankAppend(a: seq<Item>, b: seq<Item>, o: Oracle)
    ensures DropBlank(a + b, o) == DropBlank(a, o) + DropBlank(b, o)
    decreases |a|
  {
    if a == [] {
      assert a + b == b;
    } else {
      TailAppend(a, b);
      DropBlankAppend(a[1..], b, o);
      if !(a[0].Text? && o.rendersBlank(a[0].text)) {
        AppendAssoc([a[0]], DropBlank(a[1..], o), DropBlank(b, o));
      }
    }
  }

  /** A single item is dropped exactly when it is a string that renders blank. */
  lemma DropBlankSingle(x: Item, o: Oracle)
    ensures DropBlank([x], o) == if x.Text? && o.rendersBlank(x.text) then [] else [x]
  {
    assert [x][1..] == [];
  }

  /** The number of synchronous commands at the front of the sequence. */
  function RunLength(items: seq<Item>): (k: nat)
    ensures k <= |items|
    ensures forall j | 0 <= j < k :: IsSyncItem(items[j])
    ensures k < |items| ==> !IsSyncItem(items[k])
  {
    if items == [] || !IsSyncItem(items[0]) then 0 else 1 + RunLength(items[1..])
  }

  function CommandsOf(items: seq<Item>): (r: seq<Command>)
    requires forall i | 0 <= i < |items| :: items[i].Cmd?
  {
    seq(|items|, i requires 0 <= i < |items| => items[i].command)
  }

  function AsItems(cs: seq<Command>): (r: seq<Item>) {
    seq(|cs|, i requires 0 <= i < |cs| => Cmd(cs[i]))
  }

  /** itertools.groupby on "is synchronous": each maximal run of synchronous
      commands becomes one chain followed by a break as long as the chain;
      everything else is kept as it is. */
  function GroupRuns(items: seq<Item>): (r: seq<Item>)
    requires SyncSchedulable(items)
    ensures r == [] <==> items == []
    decreases |items|
  {
    if items == [] then []
    else if IsSyncItem(items[0]) then
      var k := RunLength(items);
      var chain := Chain(CommandsOf(items[..k]));
      assert Schedulable(chain);
      assert SyncSchedulable(items[k..]) by {
        forall i | 0 <= i < |items| - k ensures IsSyncItem(items[k..][i]) ==> Schedulable(items[k..][i].command) {
          assert items[k..][i] == items[k + i];
        }
      }
      [Cmd(chain), Cmd(Break(Duration(chain)))] + GroupRuns(items[k..])
    else
      [items[0]] + GroupRuns(items[1..])
  }

  /** Every chain expanded back into its member commands. */
  function Flatten(out: seq<Item>): (r: seq<Item>) {
    if out == [] then []
    else (if out[0].Cmd? && out[0].command.Chain? then AsItems(out[0].command.subcommands) else [out[0]])
         + Flatten(out[1..])
  }

  /** The sequence with every break that directly follows a chain removed. */
  function DropChainBreaks(items: seq<Item>): (r: seq<Item>) {
    if |items| < 2 then items
    else if items[0].Cmd? && items[0].command.Chain? && items[1].Cmd? && items[1].command.Break? then
      [items[0]] + DropChainBreaks(items[2..])
    else
      [items[0]] + DropChainBreaks(items[1..])
  }

  /** The shape of a grouped sequence: every synchronous command in it is a
      non-empty chain of synchronous commands, directly followed by a break
      of the chain's duration, and the item after that break (if any) is
      not synchronous, so the runs were maximal. */
  predicate Grouped(out: seq<Item>) {
    forall i | 0 <= i < |out| && IsSyncItem(out[i]) ::
      && out[i].command.Chain?
      && out[i].command.subcommands != []
      && (forall c | c in out[i].command.subcommands :: IsSynchronous(c))
      && Schedulable(out[i].command)
      && i + 1 < |out|
      && out[i + 1] == Cmd(Break(Duration(out[i].command)))
      && (i + 2 < |out| ==> !IsSyncItem(out[i + 2]))
  }

  lemma AsItemsCommandsOf(items: seq<Item>)
    requires forall i | 0 <= i < |items| :: items[i].Cmd?
    ensures AsItems(CommandsOf(items)) == items
  {
  }

  lemma GroupRunsHead(items: seq<Item>)
    requires SyncSchedulable(items) && items != [] && !IsSyncItem(items[0])
    ensures GroupRuns(items) != [] && GroupRuns(items)[0] == items[0]
  {
  }

  /** Undoing the grouping: dropping each chain's break and expanding the
      chain gives back the input, so each chain holds its run in order and
      nothing else moves. */
  lemma {:induction false} GroupRunsRoundTrip(items: seq<Item>)
    requires SyncSchedulable(items)
    ensures Flatten(DropChainBreaks(GroupRuns(items))) == items
    decreases |items|
  {
    if items != [] {
      if IsSyncItem(items[0]) {
        var k := RunLength(items);
        GroupRunsRoundTrip(items[k..]);
        RoundTripRun(items);
      } else {
        GroupRunsRoundTrip(items[1..]);
        RoundTripOther(items);
      }
    }
  }

  lemma RoundTripRun(items: seq<Item>)
    requires SyncSchedulable(items) && items != [] && IsSyncItem(items[0])
    requires SyncSchedulable(items[RunLength(items)..])
    requires Flatten(DropChainBreaks(GroupRuns(items[RunLength(items)..]))) == items[RunLength(items)..]
    ensures Flatten(DropChainBreaks(GroupRuns(items))) == items
  {
    var k := RunLength(items);
    var cs := CommandsOf(items[..k]);
    var d := DropChainBreaks(GroupRuns(items[k..]));
    assert DropChainBreaks(GroupRuns(items)) == [Cmd(Chain(cs))] + d by {
      RunHeadDropped(items);
    }
    assert Flatten([Cmd(Chain(cs))] + d) == AsItems(cs) + Flatten(d) by {
      FlattenChain(Chain(cs), d);
    }
    assert AsItems(cs) == items[..k] by {
      AsItemsCommandsOf(items[..k]);
    }
    assert items[..k] + items[k..] == items by {
      SplitJoin(items, k);
    }
  }

  /** Dropping the breaks of a grouping that starts with a run leaves the
      run's chain in front of the rest with its breaks dropped. */
  lemma RunHeadDropped(items: seq<Item>)
    requires SyncSchedulable(items) && items != [] && IsSyncItem(items[0])
    ensures SyncSchedulable(items[RunLength(items)..])
    ensures DropChainBreaks(GroupRuns(items))
         == [Cmd(Chain(CommandsOf(items[..RunLength(items)])))] + DropChainBreaks(GroupRuns(items[RunLength(items)..]))
  {
    GroupRunsRunHead(items);
    DropBreakAfterChain(GroupRuns(items));
  }

  /** A run at the head of the input becomes a chain of its commands, a
      break, and then the grouping of what follows the run. */
  lemma GroupRunsRunHead(items: seq<Item>)
    requires SyncSchedulable(items) && items != [] && IsSyncItem(items[0])
    ensures SyncSchedulable(items[RunLength(items)..])
    ensures |GroupRuns(items)| >= 2
    ensures GroupRuns(items)[0] == Cmd(Chain(CommandsOf(items[..RunLength(items)])))
    ensures GroupRuns(items)[1].Cmd? && GroupRuns(items)[1].command.Break?
    ensures GroupRuns(items)[2..] == GroupRuns(items[RunLength(items)..])
  {
  }

  lemma DropBreakAfterChain(out: seq<Item>)
    requires |out| >= 2 && out[0].Cmd? && out[0].command.Chain? && out[1].Cmd? && out[1].command.Break?
    ensures DropChainBreaks(out) == [out[0]] + DropChainBreaks(out[2..])
  {
  }

  lemma FlattenChain(chain: Command, rest: seq<Item>)
    requires chain.Chain?
    ensures Flatten([Cmd(chain)] + rest) == AsItems(chain.subcommands) + Flatten(rest)
  {
    assert ([Cmd(chain)] + rest)[1..] == rest;
  }

  lemma RoundTripOther(items: seq<Item>)
    requires SyncSchedulable(items) && items != [] && !IsSyncItem(items[0])
    requires SyncSchedulable(items[1..])
    requires Flatten(DropChainBreaks(GroupRuns(items[1..]))) == items[1..]
    ensures Flatten(DropChainBreaks(GroupRuns(items))) == items
  {
    var rest := GroupRuns(items[1..]);
    var out := GroupRuns(items);
    assert out == [items[0]] + rest;
    var dropped := DropChainBreaks(rest);
    if rest == [] {
      assert DropChainBreaks(out) == [items[0]];
    } else {
      assert out[1..] == rest;
      assert DropChainBreaks(out) == [items[0]] + dropped;
    }
    assert ([items[0]] + dropped)[1..] == dropped;
    assert Flatten([items[0]] + dropped) == [items[0]] + Flatten(dropped);
    assert items == [items[0]] + items[1..];
  }

  /** The grouped sequence has the shape Grouped describes. */
  lemma {:induction false} GroupRunsShape(items: seq<Item>)
    requires SyncSchedulable(items)
    ensures Grouped(GroupRuns(items))
    decreases |items|
  {
    if items != [] {
      var out := GroupRuns(items);
      if IsSyncItem(items[0]) {
        var k := RunLength(items);
        var chain := Chain(CommandsOf(items[..k]));
        var rest := GroupRuns(items[k..]);
        GroupRunsShape(items[k..]);
        assert out == [Cmd(chain), Cmd(Break(Duration(chain)))] + rest;
        if k < |items| {
          GroupRunsHead(items[k..]);
        }
        forall c | c in chain.subcommands ensures IsSynchronous(c) {
          var j :| 0 <= j < k && chain.subcommands[j] == c;
        }
        forall i | 0 <= i < |out| && IsSyncItem(out[i])
          ensures && out[i].command.Chain?
                  && out[i].command.subcommands != []
                  && (forall c | c in out[i].command.subcommands :: IsSynchronous(c))
                  && Schedulable(out[i].command)
                  && i + 1 < |out|
                  && out[i + 1] == Cmd(Break(Duration(out[i].command)))
                  && (i + 2 < |out| ==> !IsSyncItem(out[i + 2]))
        {
          if i >= 2 {
            assert out[i] == rest[i - 2];
          }
        }
      } else {
        var rest := GroupRuns(items[1..]);
        GroupRunsShape(items[1..]);
        assert out == [items[0]] + rest;
        forall i | 0 <= i < |out| && IsSyncItem(out[i])
          ensures && out[i].command.Chain?
                  && out[i].command.subcommands != []
                  && (forall c | c in out[i].command.subcommands :: IsSynchronous(c))
                  && Schedulable(out[i].command)
                  && i + 1 < |out|
                  && out[i + 1] == Cmd(Break(Duration(out[i].command)))
                  && (i + 2 < |out| ==> !IsSyncItem(out[i + 2]))
        {
          assert out[i] == rest[i - 1];
        }
      }
    }
  }

  lemma {:induction false} RunLengthOfRun(run: seq<Command>, rest: seq<Item>)
    requires forall j | 0 <= j < |run| :: IsSynchronous(run[j])
    requires rest == [] || !IsSyncItem(rest[0])
    ensures RunLength(AsItems(run) + rest) == |run|
    decreases |run|
  {
    if run != [] {
      assert (AsItems(run) + rest)[1..] == AsItems(run[1..]) + rest;
      RunLengthOfRun(run[1..], rest);
    } else {
      assert AsItems(run) + rest == rest;
    }
  }

  /** A whole run at the front of the sequence becomes one chain and its break. */
  lemma GroupRunsFlush(run: seq<Command>, rest: seq<Item>)
    requires run != []
    requires forall j | 0 <= j < |run| :: IsSynchronous(run[j]) && Schedulable(run[j])
    requires rest == [] || !IsSyncItem(rest[0])
    requires SyncSchedulable(AsItems(run) + rest)
    ensures Schedulable(Chain(run)) && SyncSchedulable(rest)
    ensures GroupRuns(AsItems(run) + rest) == [Cmd(Chain(run)), Cmd(Break(Duration(Chain(run))))] + GroupRuns(rest)
  {
    var items := AsItems(run) + rest;
    RunLengthOfRun(run, rest);
    assert items[..|run|] == AsItems(run);
    assert CommandsOf(AsItems(run)) == run;
    assert items[|run|..] == rest;
    assert IsSyncItem(items[0]);
  }

  lemma AppendToRun(run: seq<Command>, x: Item, rest: seq<Item>)
    requires x.Cmd?
    ensures AsItems(run + [x.command]) + rest == AsItems(run) + ([x] + rest)
  {
  }

  /** The chain and break a finished run turns into; nothing for an empty run. */
  function Flushed(run: seq<Command>): (r: seq<Item>)
    requires AllSchedulable(run)
  {
    if run == [] then [] else [Cmd(Chain(run)), Cmd(Break(Duration(Chain(run))))]
  }

  lemma GroupRunsOther(x: Item, rest: seq<Item>)
    requires !IsSyncItem(x) && SyncSchedulable([x] + rest)
    ensures SyncSchedulable(rest)
    ensures GroupRuns([x] + rest) == [x] + GroupRuns(rest)
  {
    assert ([x] + rest)[1..] == rest;
  }

  /** A sequence without synchronous commands comes out of the grouping as it went in. */
  lemma {:induction false} GroupRunsNoSync(items: seq<Item>)
    requires forall i | 0 <= i < |items| :: !IsSyncItem(items[i])
    ensures SyncSchedulable(items)
    ensures GroupRuns(items) == items
    decreases |items|
  {
    if items != [] {
      GroupRunsNoSync(items[1..]);
      TailAppend([items[0]], items[1..]);
      GroupRunsOther(items[0], items[1..]);
    }
  }

  /** A run ended by an item that is not synchronous. */
  lemma GroupRunsAfterRun(run: seq<Command>, x: Item, rest: seq<Item>)
    requires forall j | 0 <= j < |run| :: IsSynchronous(run[j]) && Schedulable(run[j])
    requires !IsSyncItem(x) && SyncSchedulable(AsItems(run) + ([x] + rest))
    ensures SyncSchedulable(rest)
    ensures GroupRuns(AsItems(run) + ([x] + rest)) == Flushed(run) + [x] + GroupRuns(rest)
  {
    var f := Flushed(run);
    assert SyncSchedulable([x] + rest) && GroupRuns(AsItems(run) + ([x] + rest)) == f + GroupRuns([x] + rest) by {
      if run != [] {
        GroupRunsFlush(run, [x] + rest);
      } else {
        assert AsItems(run) + ([x] + rest) == [x] + rest;
      }
    }
    GroupRunsOther(x, rest);
    AppendAssoc(f, [x], GroupRuns(rest));
  }

  /** A run ended by the end of the sequence. */
  lemma GroupRunsOfRun(run: seq<Command>)
    requires forall j | 0 <= j < |run| :: IsSynchronous(run[j]) && Schedulable(run[j])
    ensures SyncSchedulable(AsItems(run))
    ensures GroupRuns(AsItems(run)) == Flushed(run)
  {
    if run != [] {
      assert AsItems(run) + [] == AsItems(run);
      GroupRunsFlush(run, []);
    }
  }

  /** The state of the grouping loop after i items: a run of synchronous
      commands not yet closed, and output that, followed by the grouping of
      the open run and the unread items, is the grouping of the whole input. */
  predicate Grouping(filtered: seq<Item>, i: nat, run: seq<Command>, newSequence: seq<Item>)
    requires i <= |filtered|
  {
    && (forall j | 0 <= j < |run| :: IsSynchronous(run[j]) && Schedulable(run[j]))
    && SyncSchedulable(filtered)
    && SyncSchedulable(AsItems(run) + filtered[i..])
    && newSequence + GroupRuns(AsItems(run) + filtered[i..]) == GroupRuns(filtered)
  }

  lemma GroupingStart(filtered: seq<Item>)
    requires SyncSchedulable(filtered)
    ensures Grouping(filtered, 0, [], [])
  {
    assert AsItems([]) + filtered[0..] == filtered;
  }

  lemma GroupingSync(filtered: seq<Item>, i: nat, run: seq<Command>, newSequence: seq<Item>)
    requires i < |filtered| && Grouping(filtered, i, run, newSequence) && IsSyncItem(filtered[i])
    ensures Grouping(filtered, i + 1, run + [filtered[i].command], newSequence)
  {
    var x := filtered[i];
    assert filtered[i..] == [x] + filtered[i + 1..];
    AppendToRun(run, x, filtered[i + 1..]);
    assert IsSyncItem((AsItems(run) + filtered[i..])[|run|]);
  }

  lemma GroupingOther(filtered: seq<Item>, i: nat, run: seq<Command>, newSequence: seq<Item>)
    requires i < |filtered| && Grouping(filtered, i, run, newSequence) && !IsSyncItem(filtered[i])
    ensures Grouping(filtered, i + 1, [], newSequence + Flushed(run) + [filtered[i]])
  {
    var x := filtered[i];
    var rest := filtered[i + 1..];
    assert filtered[i..] == [x] + rest;
    GroupRunsAfterRun(run, x, rest);
    var flushed := Flushed(run);
    var g := GroupRuns(rest);
    assert newSequence + (flushed + [x] + g) == (newSequence + flushed + [x]) + g;
    assert AsItems([]) + rest == rest;
  }

  lemma GroupingDone(filtered: seq<Item>, run: seq<Command>, newSequence: seq<Item>)
    requires Grouping(filtered, |filtered|, run, newSequence)
    ensures AllSchedulable(run)
    ensures newSequence + Flushed(run) == GroupRuns(filtered)
  {
    assert AsItems(run) + filtered[|filtered|..] == AsItems(run);
    GroupRunsOfRun(run);
  }

  // ---- eloquenceFix ----

  /** The strings that are still spoken at the current symbol level. */
  function SpokenTexts(items: seq<Item>, o: Oracle): (r: seq<string>)
    ensures |r| > 0 <==> exists i | 0 <= i < |items| :: items[i].Text? && !o.rendersBlank(items[i].text)
  {
    if items == [] then []
    else
      var rest := SpokenTexts(items[1..], o);
      assert forall i | 1 <= i < |items| :: items[i] == items[1..][i - 1];
      if items[0].Text? && !o.rendersBlank(items[0].text) then [items[0].text] + rest else rest
  }

  /** Index i holds a break whose predecessor is a chain. */
  predicate BreakAfterChain(items: seq<Item>, i: nat)
    requires i < |items|
  {
    1 <= i && items[i].Cmd? && items[i].command.Break? && items[i - 1].Cmd? && items[i - 1].command.Chain?
  }

  /** The items from index i on whose index is not to be removed. */
  function KeptFrom(items: seq<Item>, i: nat): (r: seq<Item>)
    requires i <= |items|
    decreases |items| - i
  {
    if i == |items| then []
    else (if BreakAfterChain(items, i) then [] else [items[i]]) + KeptFrom(items, i + 1)
  }

  /** eloquenceFix as a function of its input. */
  function EloquenceFixed(items: seq<Item>, o: Oracle): (r: seq<Item>) {
    if |SpokenTexts(items, o)| > 0 then items else KeptFrom(items, 0)
  }

  /** eloquenceFix: with something left to speak the sequence is returned as
      it is; otherwise every break that directly follows a chain is removed. */
  method EloquenceFix(items: seq<Item>, o: Oracle) returns (r: seq<Item>)
    ensures r == EloquenceFixed(items, o)
  {
    var nonEmpty := SpokenTexts(items, o);
    if |nonEmpty| > 0 {
      return items;
    }
    var indicesToRemove: seq<nat> := [];
    var i := 1;
    while i < |items|
      invariant 1 <= i <= |items| || (i == 1 && items == [])
      invariant forall j :: j in indicesToRemove <==> 1 <= j < i && j < |items| && BreakAfterChain(items, j)
    {
      if items[i].Cmd? && items[i].command.Break? && items[i - 1].Cmd? && items[i - 1].command.Chain? {
        indicesToRemove := indicesToRemove + [i];
      }
      i := i + 1;
    }
    r := [];
    i := 0;
    while i < |items|
      invariant 0 <= i <= |items|
      invariant r + KeptFrom(items, i) == KeptFrom(items, 0)
    {
      var keep: seq<Item> := if i !in indicesToRemove then [items[i]] else [];
      assert KeptFrom(items, i) == keep + KeptFrom(items, i + 1);
      AppendAssoc(r, keep, KeptFrom(items, i + 1));
      r := r + keep;
      i := i + 1;
    }
  }

  /** The index-by-index filter of eloquenceFix agrees with the recursive
      description: drop a break exactly when it directly follows a chain. */
  lemma {:induction false} KeptFromIsDropChainBreaks(items: seq<Item>, i: nat)
    requires i <= |items|
    requires i < |items| ==> !BreakAfterChain(items, i)
    ensures KeptFrom(items, i) == DropChainBreaks(items[i..])
    decreases |items| - i
  {
    if i < |items| {
      var tail := items[i..];
      if i + 1 < |items| && items[i].Cmd? && items[i].command.Chain? && items[i + 1].Cmd? && items[i + 1].command.Break? {
        assert BreakAfterChain(items, i + 1);
        assert KeptFrom(items, i + 1) == KeptFrom(items, i + 2);
        KeptFromIsDropChainBreaks(items, i + 2);
        assert tail[2..] == items[i + 2..];
      } else if i + 1 < |items| {
        KeptFromIsDropChainBreaks(items, i + 1);
        assert tail[1..] == items[i + 1..];
      } else {
        assert KeptFrom(items, i + 1) == [];
        assert tail == [items[i]];
      }
    }
  }

  /** eloquenceFix returns its input unchanged when some string in it is
      still spoken, and otherwise removes exactly the breaks that directly
      follow a chain, keeping everything else in order. */
  lemma EloquenceFixedCases(items: seq<Item>, o: Oracle)
    ensures |SpokenTexts(items, o)| > 0 ==> EloquenceFixed(items, o) == items
    ensures |SpokenTexts(items, o)| == 0 ==> EloquenceFixed(items, o) == DropChainBreaks(items)
  {
    KeptFromIsDropChainBreaks(items, 0);
    assert items[0..] == items;
  }

  // ---- the whole post-processing pass ----

  /** postProcessSynchronousCommands as a function of its input. */
  function PostProcessed(items: seq<Item>, o: Oracle): (r: seq<Item>)
    requires SyncSchedulable(items)
  {
    EloquenceFixed(GroupRuns(DropBlank(items, o)), o)
  }

  /** postProcessSynchronousCommands */
  method PostProcessSynchronousCommands(items: seq<Item>, o: Oracle) returns (r: seq<Item>)
    requires SyncSchedulable(items)
    ensures r == PostProcessed(items, o)
  {
    var filtered := DropBlank(items, o);
    var newSequence: seq<Item> := [];
    var run: seq<Command> := [];
    var i := 0;
    GroupingStart(filtered);
    while i < |filtered|
      invariant 0 <= i <= |filtered|
      invariant Grouping(filtered, i, run, newSequence)
    {
      var x := filtered[i];
      if IsSyncItem(x) {
        GroupingSync(filtered, i, run, newSequence);
        run := run + [x.command];
      } else {
        GroupingOther(filtered, i, run, newSequence);
        newSequence := newSequence + Flushed(run) + [x];
        run := [];
      }
      i := i + 1;
    }
    GroupingDone(filtered, run, newSequence);
    newSequence := newSequence + Flushed(run);
    r := EloquenceFix(newSequence, o);
  }

  /** With no spoken text left, the pass keeps every command and every
      non-blank item in order, chains holding their runs, and removes only
      the breaks it inserted after them. */
  lemma PostProcessedSilent(items: seq<Item>, o: Oracle)
    requires SyncSchedulable(items)
    requires |SpokenTexts(GroupRuns(DropBlank(items, o)), o)| == 0
    ensures Flatten(PostProcessed(items, o)) == DropBlank(items, o)
  {
    var g := GroupRuns(DropBlank(items, o));
    KeptFromIsDropChainBreaks(g, 0);
    assert g[0..] == g;
    GroupRunsRoundTrip(DropBlank(items, o));
  }

  /** With spoken text left, the pass output is the grouped sequence itself:
      chains each followed by the break of their duration, maximal runs,
      and dropping those breaks and expanding the chains gives back the
      input without its blank strings. */
  lemma PostProcessedSpoken(items: seq<Item>, o: Oracle)
    requires SyncSchedulable(items)
    requires |SpokenTexts(GroupRuns(DropBlank(items, o)), o)| > 0
    ensures PostProcessed(items, o) == GroupRuns(DropBlank(items, o))
    ensures Grouped(PostProcessed(items, o))
    ensures Flatten(DropChainBreaks(PostProcessed(items, o))) == DropBlank(items, o)
  {
    GroupRunsShape(DropBlank(items, o));
    GroupRunsRoundTrip(DropBlank(items, o));
  }
}
