/** AudioRule: the commands a rule plays, and how a rule splits one string of
    speech into text pieces and commands around the matches of its pattern. */
module Rules {
  import opened Commands

  const AudioRuleBuiltInWave: string := "builtInWave"
  const AudioRuleWave: string := "wave"
  const AudioRuleBeep: string := "beep"
  const AudioRuleProsody: string := "prosody"
  const AudioRuleTypes: seq<string> := [AudioRuleBuiltInWave, AudioRuleWave, AudioRuleBeep, AudioRuleProsody]

  /** The stored fields of a rule. caseSensitive is kept but plays no part in
      matching: the pattern is compiled without flags. */
  datatype RuleConfig = RuleConfig(
    comment: string,
    pattern: string,
    ruleType: string,
    wavFile: string,
    builtInWavFile: string,
    startAdjustment: int,
    endAdjustment: int,
    tone: int,
    duration: int,
    enabled: bool,
    caseSensitive: bool,
    prosodyName: string,
    prosodyOffset: Option<int>,
    prosodyMultiplier: Option<real>,
    volume: int)

  /** The add-on's sounds directory, and what wave.open reads from a path. */
  datatype SoundFiles = SoundFiles(soundsPath: string, open: string -> WaveData)

  function JoinPath(dir: string, name: string): (r: string) {
    dir + "\\" + name
  }

  /** The file a wave rule plays: a built-in sound lives in the sounds directory. */
  function WavePath(rule: RuleConfig, files: SoundFiles): (r: string) {
    if rule.ruleType == AudioRuleBuiltInWave then JoinPath(files.soundsPath, rule.builtInWavFile) else rule.wavFile
  }

  /** The command played at a match, and for prosody rules the one that ends it. */
  datatype CommandPair = CommandPair(pre: Command, post: Option<Command>)

  /** AudioRule.getSpeechCommand */
  function GetSpeechCommand(rule: RuleConfig, files: SoundFiles): (r: Result<CommandPair>)
    ensures rule.ruleType !in AudioRuleTypes ==> r == Err(UnknownRuleType(rule.ruleType))
    ensures r.Ok? ==> (r.value.post.Some? <==> rule.ruleType == AudioRuleProsody)
    ensures rule.ruleType == AudioRuleBeep ==>
      r == Ok(CommandPair(Beep(rule.tone, rule.duration, rule.volume, rule.volume), None))
    ensures rule.ruleType == AudioRuleProsody ==> (r.Ok? <==> rule.prosodyName != [])
    ensures rule.ruleType == AudioRuleProsody && r.Ok? ==>
      && r.value.pre.Prosody? && r.value.pre.name == rule.prosodyName
      && (rule.prosodyOffset.Some? ==> r.value.pre.change == Offset(rule.prosodyOffset.value))
      && (rule.prosodyOffset.None? ==> r.value.pre.change == Multiplier(rule.prosodyMultiplier))
      && r.value.post == Some(Prosody(rule.prosodyName, Restore))
    ensures rule.ruleType in [AudioRuleBuiltInWave, AudioRuleWave] ==>
      && (r.Err? <==> files.open(WavePath(rule, files)).sampWidth != 2
                      || !AllInt16(WaveBuffer(files.open(WavePath(rule, files)).samples, rule.volume, rule.startAdjustment,
                                              files.open(WavePath(rule, files)).rate, files.open(WavePath(rule, files)).channels)))
      && (r.Ok? ==> r.value.pre.WaveFile? && r.value.pre.fileName == WavePath(rule, files)
                    && r.value.pre.volume == rule.volume
                    && r.value.pre.startAdjustment == rule.startAdjustment
                    && r.value.pre.endAdjustment == rule.endAdjustment)
    ensures rule.ruleType in [AudioRuleBuiltInWave, AudioRuleWave] && r.Ok? ==>
      var data := files.open(WavePath(rule, files));
      r.value == CommandPair(WaveFile(WavePath(rule, files), rule.startAdjustment, rule.endAdjustment, rule.volume,
                                      data.nframes, data.rate, data.channels,
                                      WaveBuffer(data.samples, rule.volume, rule.startAdjustment, data.rate, data.channels)),
                             None)
  {
    if rule.ruleType == AudioRuleBuiltInWave || rule.ruleType == AudioRuleWave then
      var path := WavePath(rule, files);
      match NewWaveFile(path, files.open(path), rule.startAdjustment, rule.endAdjustment, rule.volume)
      case Ok(c) => Ok(CommandPair(c, None))
      case Err(e) => Err(e)
    else if rule.ruleType == AudioRuleBeep then
      Ok(CommandPair(Beep(rule.tone, rule.duration, rule.volume, rule.volume), None))
    else if rule.ruleType == AudioRuleProsody then
      if rule.prosodyName == [] then
        Err(EmptyProsodyName)
      else
        var change := if rule.prosodyOffset.Some? then Offset(rule.prosodyOffset.value) else Multiplier(rule.prosodyMultiplier);
        Ok(CommandPair(Prosody(rule.prosodyName, change), Some(Prosody(rule.prosodyName, Restore))))
    else
      Err(UnknownRuleType(rule.ruleType))
  }

  /** A constructed AudioRule: its fields and the commands built once for it. */
  datatype AudioRule = AudioRule(config: RuleConfig, speechCommand: Command, postSpeechCommand: Option<Command>)

  /** AudioRule.__init__: the construction fails exactly when getSpeechCommand raises. */
  function NewAudioRule(config: RuleConfig, files: SoundFiles): (r: Result<AudioRule>)
    ensures r.Err? <==> GetSpeechCommand(config, files).Err?
    ensures r.Ok? ==> r.value.config == config
    ensures r.Ok? ==> (r.value.postSpeechCommand.Some? <==> config.ruleType == AudioRuleProsody)
    ensures r.Ok? ==>
      && r.value.speechCommand == GetSpeechCommand(config, files).value.pre
      && r.value.postSpeechCommand == GetSpeechCommand(config, files).value.post
    ensures r.Err? ==> r.error == GetSpeechCommand(config, files).error
  {
    match GetSpeechCommand(config, files)
    case Ok(pair) => Ok(AudioRule(config, pair.pre, pair.post))
    case Err(e) => Err(e)
  }

  /** One match of the pattern: the characters start .. end - 1 (empty when start == end). */
  datatype Span = Span(start: nat, end: nat)

  /** What finditer yields over a string of length n, no earlier than from:
      matches in order, none overlapping the next; empty matches allowed. */
  predicate Matches(spans: seq<Span>, from: nat, n: nat) {
    && from <= n
    && (forall k | 0 <= k < |spans| :: from <= spans[k].start <= spans[k].end <= n)
    && (forall j, k | 0 <= j < k < |spans| :: spans[j].end <= spans[k].start)
  }

  /** speech.isBlank, and speech.isBlank of speech.processText at the current
      language and symbol level. */
  datatype Oracle = Oracle(isBlank: string -> bool, rendersBlank: string -> bool)

  /** A match is skipped when its text has content the current symbol level does not speak. */
  function Skipped(o: Oracle, g: string): (r: bool)
    ensures o.isBlank(g) ==> !r
    ensures !o.rendersBlank(g) ==> !r
    ensures r ==> o.rendersBlank(g)
  {
    !o.isBlank(g) && o.rendersBlank(g)
  }

  /** AudioRule.processStringInternal: index is where the next text piece
      starts; a skipped match leaves it where it is. */
  function Internal(s: string, spans: seq<Span>, index: nat, pre: Command, post: Option<Command>, o: Oracle): (r: seq<Item>)
    requires Matches(spans, index, |s|)
    ensures r != [] && r[0].Text? && r[|r| - 1].Text?
    decreases |spans|
  {
    if spans == [] then
      [Text(s[index..])]
    else
      var m := spans[0];
      var g := s[m.start..m.end];
      if Skipped(o, g) then
        Internal(s, spans[1..], index, pre, post, o)
      else
        [Text(s[index..m.start]), Cmd(pre)]
        + (if post.Some? then [Text(g), Cmd(post.value)] else [])
        + Internal(s, spans[1..], m.end, pre, post, o)
  }

  /** The commands of the items one kept match contributes. */
  lemma MatchCommands(before: string, matched: string, pre: Command, post: Option<Command>)
    ensures CommandsIn([Text(before), Cmd(pre)] + (if post.Some? then [Text(matched), Cmd(post.value)] else []))
            == if post.Some? then [pre, post.value] else [pre]
  {
    var head := [Text(before), Cmd(pre)] + (if post.Some? then [Text(matched), Cmd(post.value)] else []);
    if post.Some? {
      var h3 := [Cmd(post.value)];
      var h2 := [Text(matched)] + h3;
      assert head == [Text(before)] + ([Cmd(pre)] + h2);
      assert CommandsIn(h3) == [post.value] by { assert h3[1..] == []; }
      assert CommandsIn(h2) == [post.value] by { assert h2[1..] == h3; }
      assert CommandsIn([Cmd(pre)] + h2) == [pre, post.value] by { assert ([Cmd(pre)] + h2)[1..] == h2; }
      assert head[1..] == [Cmd(pre)] + h2;
    } else {
      assert head == [Text(before), Cmd(pre)];
      assert CommandsIn([Cmd(pre)]) == [pre] by { assert [Cmd(pre)][1..] == []; }
      assert head[1..] == [Cmd(pre)];
    }
  }

  /** The only commands processStringInternal yields are the rule's own two. */
  lemma {:induction false} InternalCommands(s: string, spans: seq<Span>, index: nat, pre: Command, post: Option<Command>, o: Oracle)
    requires Matches(spans, index, |s|)
    ensures forall c | c in CommandsIn(Internal(s, spans, index, pre, post, o)) :: c == pre || (post.Some? && c == post.value)
    decreases |spans|
  {
    if spans != [] {
      var m := spans[0];
      assert Matches(spans[1..], index, |s|) && Matches(spans[1..], m.end, |s|);
      if Skipped(o, s[m.start..m.end]) {
        InternalCommands(s, spans[1..], index, pre, post, o);
      } else {
        var head := [Text(s[index..m.start]), Cmd(pre)] + (if post.Some? then [Text(s[m.start..m.end]), Cmd(post.value)] else []);
        var tail := Internal(s, spans[1..], m.end, pre, post, o);
        assert Internal(s, spans, index, pre, post, o) == head + tail;
        var mine := if post.Some? then [pre, post.value] else [pre];
        assert CommandsIn(head + tail) == mine + CommandsIn(tail) by {
          TextsAppend(head, tail);
          MatchCommands(s[index..m.start], s[m.start..m.end], pre, post);
        }
        InternalCommands(s, spans[1..], m.end, pre, post, o);
      }
    }
  }

  /** Drops the empty strings of a sequence, keeping everything else in order. */
  function NonEmpty(items: seq<Item>): (r: seq<Item>)
    ensures forall i | 0 <= i < |r| :: r[i] != Text([])
    ensures Texts(r) == Texts(items)
    ensures CommandsIn(r) == CommandsIn(items)
  {
    if items == [] then []
    else
      var rest := NonEmpty(items[1..]);
      if items[0] == Text([]) then
        rest
      else
        assert ([items[0]] + rest)[1..] == rest;
        [items[0]] + rest
  }

  /** NonEmpty works item by item: filtering a concatenation filters each part. */
  lemma {:induction false} NonEmptyAppend(a: seq<Item>, b: seq<Item>)
    ensures NonEmpty(a + b) == NonEmpty(a) + NonEmpty(b)
    decreases |a|
  {
    if a == [] {
      assert a + b == b;
    } else {
      TailAppend(a, b);
      NonEmptyAppend(a[1..], b);
      if a[0] != Text([]) {
        AppendAssoc([a[0]], NonEmpty(a[1..]), NonEmpty(b));
      }
    }
  }

  /** A single item is kept exactly when it is not the empty string. */
  lemma NonEmptySingle(x: Item)
    ensures NonEmpty([x]) == if x == Text([]) then [] else [x]
  {
    assert [x][1..] == [];
  }

  /** A sequence without empty strings passes the filter unchanged; in
      particular the filter is idempotent. */
  lemma {:induction false} NonEmptyKeeps(items: seq<Item>)
    requires forall i | 0 <= i < |items| :: items[i] != Text([])
    ensures NonEmpty(items) == items
    decreases |items|
  {
    if items != [] {
      NonEmptyKeeps(items[1..]);
      assert [items[0]] + items[1..] == items;
    }
  }

  /** AudioRule.processString: a disabled rule gives back the string as it is;
      an enabled one never gives an empty string. */
  function ProcessString(rule: AudioRule, s: string, spans: seq<Span>, o: Oracle): (r: seq<Item>)
    requires Matches(spans, 0, |s|)
    ensures !rule.config.enabled ==> r == [Text(s)]
    ensures rule.config.enabled ==> forall i | 0 <= i < |r| :: r[i] != Text([])
  {
    if !rule.config.enabled then [Text(s)]
    else NonEmpty(Internal(s, spans, 0, rule.speechCommand, rule.postSpeechCommand, o))
  }

  // ---- reference definitions over the kept matches ----

  /** The matches that are not skipped, in order. */
  function Kept(s: string, spans: seq<Span>, o: Oracle): (r: seq<Span>)
    requires forall k | 0 <= k < |spans| :: spans[k].start <= spans[k].end <= |s|
  {
    if spans == [] then []
    else if Skipped(o, s[spans[0].start..spans[0].end]) then Kept(s, spans[1..], o)
    else [spans[0]] + Kept(s, spans[1..], o)
  }

  /** The layout of the output when every match in kept is used. */
  function Emit(s: string, kept: seq<Span>, index: nat, pre: Command, post: Option<Command>): (r: seq<Item>)
    requires Matches(kept, index, |s|)
    ensures |r| == if post.Some? then 4 * |kept| + 1 else 2 * |kept| + 1
    decreases |kept|
  {
    if kept == [] then
      [Text(s[index..])]
    else
      var m := kept[0];
      [Text(s[index..m.start]), Cmd(pre)]
      + (if post.Some? then [Text(s[m.start..m.end]), Cmd(post.value)] else [])
      + Emit(s, kept[1..], m.end, pre, post)
  }

  /** s from index on, with the text of every span in kept cut out. */
  function Gaps(s: string, kept: seq<Span>, index: nat): (r: string)
    requires Matches(kept, index, |s|)
    decreases |kept|
  {
    if kept == [] then s[index..] else s[index..kept[0].start] + Gaps(s, kept[1..], kept[0].end)
  }

  /** The number of characters the spans cover. */
  function Covered(spans: seq<Span>): (r: int) {
    if spans == [] then 0 else spans[0].end - spans[0].start + Covered(spans[1..])
  }

  function Repeat(c: Command, n: nat): (r: seq<Command>) {
    if n == 0 then [] else [c] + Repeat(c, n - 1)
  }

  function Pairs(a: Command, b: Command, n: nat): (r: seq<Command>) {
    if n == 0 then [] else [a, b] + Pairs(a, b, n - 1)
  }

  lemma MatchesCons(x: Span, rest: seq<Span>, from: nat, n: nat)
    requires from <= x.start <= x.end <= n && Matches(rest, x.end, n)
    ensures Matches([x] + rest, from, n)
  {
    var all := [x] + rest;
    forall j, k | 0 <= j < k < |all| ensures all[j].end <= all[k].start {
      if j > 0 {
        assert all[j] == rest[j - 1] && all[k] == rest[k - 1];
      } else {
        assert all[k] == rest[k - 1];
      }
    }
  }

  lemma {:induction false} KeptMatches(s: string, spans: seq<Span>, from: nat, o: Oracle)
    requires Matches(spans, from, |s|)
    ensures Matches(Kept(s, spans, o), from, |s|)
    decreases |spans|
  {
    if spans != [] {
      if Skipped(o, s[spans[0].start..spans[0].end]) {
        KeptMatches(s, spans[1..], from, o);
      } else {
        KeptMatches(s, spans[1..], spans[0].end, o);
        MatchesCons(spans[0], Kept(s, spans[1..], o), from, |s|);
      }
    }
  }

  /** A skipped match does not move the start of the next text piece, so its
      text stays in that piece: the output is the layout of the kept matches. */
  lemma {:induction false} InternalIsEmitOfKept(s: string, spans: seq<Span>, index: nat, pre: Command, post: Option<Command>, o: Oracle)
    requires Matches(spans, index, |s|)
    ensures Matches(Kept(s, spans, o), index, |s|)
    ensures Internal(s, spans, index, pre, post, o) == Emit(s, Kept(s, spans, o), index, pre, post)
    decreases |spans|
  {
    KeptMatches(s, spans, index, o);
    if spans != [] {
      if Skipped(o, s[spans[0].start..spans[0].end]) {
        InternalIsEmitOfKept(s, spans[1..], index, pre, post, o);
      } else {
        InternalIsEmitOfKept(s, spans[1..], spans[0].end, pre, post, o);
        assert Kept(s, spans, o)[1..] == Kept(s, spans[1..], o);
      }
    }
  }

  lemma TextThenCommand(t: string, c: Command)
    ensures Texts([Text(t), Cmd(c)]) == t
    ensures CommandsIn([Text(t), Cmd(c)]) == [c]
  {
    var x := [Text(t), Cmd(c)];
    assert x[1..] == [Cmd(c)] && x[1..][1..] == [];
    assert Texts(x[1..]) == [];
    assert CommandsIn(x[1..]) == [c];
  }

  lemma EmitUnfold(s: string, kept: seq<Span>, index: nat, pre: Command, post: Option<Command>)
    requires Matches(kept, index, |s|) && kept != []
    ensures Matches(kept[1..], kept[0].end, |s|)
    ensures post.Some? ==>
      (Emit(s, kept, index, pre, post)
         == [Text(s[index..kept[0].start]), Cmd(pre)]
            + ([Text(s[kept[0].start..kept[0].end]), Cmd(post.value)] + Emit(s, kept[1..], kept[0].end, pre, post)))
    ensures post.None? ==>
      (Emit(s, kept, index, pre, post)
         == [Text(s[index..kept[0].start]), Cmd(pre)] + Emit(s, kept[1..], kept[0].end, pre, post))
  {
    var head := [Text(s[index..kept[0].start]), Cmd(pre)];
    var tail := Emit(s, kept[1..], kept[0].end, pre, post);
    if post.Some? {
      AppendAssoc(head, [Text(s[kept[0].start..kept[0].end]), Cmd(post.value)], tail);
    } else {
      assert head + [] == head;
    }
  }

  lemma SliceJoin(s: string, i: nat, j: nat, k: nat)
    requires i <= j <= k <= |s|
    ensures s[i..j] + (s[j..k] + s[k..]) == s[i..]
  {
  }

  /** Without a closing command the text pieces are the string with every
      kept match cut out, and the opening command appears once per kept match. */
  lemma {:induction false} EmitSound(s: string, kept: seq<Span>, index: nat, pre: Command)
    requires Matches(kept, index, |s|)
    ensures Texts(Emit(s, kept, index, pre, None)) == Gaps(s, kept, index)
    ensures CommandsIn(Emit(s, kept, index, pre, None)) == Repeat(pre, |kept|)
    decreases |kept|
  {
    var e := Emit(s, kept, index, pre, None);
    if kept == [] {
      assert e[1..] == [];
    } else {
      EmitSoundStep(s, kept, index, pre);
      EmitSound(s, kept[1..], kept[0].end, pre);
    }
  }

  /** One step of EmitSound: a text piece and the opening command, then the
      layout of the rest. */
  lemma EmitSoundStep(s: string, kept: seq<Span>, index: nat, pre: Command)
    requires Matches(kept, index, |s|) && kept != []
    ensures Matches(kept[1..], kept[0].end, |s|)
    ensures Texts(Emit(s, kept, index, pre, None))
         == s[index..kept[0].start] + Texts(Emit(s, kept[1..], kept[0].end, pre, None))
    ensures CommandsIn(Emit(s, kept, index, pre, None))
         == [pre] + CommandsIn(Emit(s, kept[1..], kept[0].end, pre, None))
  {
    var m := kept[0];
    var head := [Text(s[index..m.start]), Cmd(pre)];
    var tail := Emit(s, kept[1..], m.end, pre, None);
    EmitUnfold(s, kept, index, pre, None);
    TextsAppend(head, tail);
    TextThenCommand(s[index..m.start], pre);
  }

  /** With a closing command the text pieces spell the whole string and each
      kept match is bracketed by the pair of commands. */
  lemma {:induction false} EmitProsody(s: string, kept: seq<Span>, index: nat, pre: Command, post: Command)
    requires Matches(kept, index, |s|)
    ensures Texts(Emit(s, kept, index, pre, Some(post))) == s[index..]
    ensures CommandsIn(Emit(s, kept, index, pre, Some(post))) == Pairs(pre, post, |kept|)
    decreases |kept|
  {
    var e := Emit(s, kept, index, pre, Some(post));
    if kept == [] {
      assert e[1..] == [];
    } else {
      var m := kept[0];
      EmitProsodyStep(s, kept, index, pre, post);
      EmitProsody(s, kept[1..], m.end, pre, post);
      SliceJoin(s, index, m.start, m.end);
    }
  }

  /** One step of EmitProsody: a text piece, the opening command, the match,
      the closing command, then the layout of the rest. */
  lemma EmitProsodyStep(s: string, kept: seq<Span>, index: nat, pre: Command, post: Command)
    requires Matches(kept, index, |s|) && kept != []
    ensures Matches(kept[1..], kept[0].end, |s|)
    ensures Texts(Emit(s, kept, index, pre, Some(post)))
         == s[index..kept[0].start] + (s[kept[0].start..kept[0].end] + Texts(Emit(s, kept[1..], kept[0].end, pre, Some(post))))
    ensures CommandsIn(Emit(s, kept, index, pre, Some(post)))
         == [pre, post] + CommandsIn(Emit(s, kept[1..], kept[0].end, pre, Some(post)))
  {
    var m := kept[0];
    var head := [Text(s[index..m.start]), Cmd(pre)];
    var mid := [Text(s[m.start..m.end]), Cmd(post)];
    var tail := Emit(s, kept[1..], m.end, pre, Some(post));
    EmitUnfold(s, kept, index, pre, Some(post));
    TextsAppend(head, mid + tail);
    TextsAppend(mid, tail);
    TextThenCommand(s[index..m.start], pre);
    TextThenCommand(s[m.start..m.end], post);
  }

  /** Where the text piece before kept match k starts: at index for the
      first one, at the end of match k-1 otherwise. */
  function PieceStart(kept: seq<Span>, index: nat, k: nat): (r: nat)
    requires k <= |kept|
  {
    if k == 0 then index else kept[k - 1].end
  }

  /** Where the text piece before kept match k ends: at the match, or at the
      end of the string for the piece after the last match. */
  function PieceEnd(s: string, kept: seq<Span>, k: nat): (r: nat)
    requires k <= |kept|
  {
    if k < |kept| then kept[k].start else |s|
  }

  lemma PieceBounds(s: string, kept: seq<Span>, index: nat, k: nat)
    requires Matches(kept, index, |s|) && k <= |kept|
    ensures PieceStart(kept, index, k) <= PieceEnd(s, kept, k) <= |s|
  {
    if 0 < k < |kept| {
      assert kept[k - 1].end <= kept[k].start;
    }
  }

  /** The first items of Emit: the text before the first kept match, the pre
      command, and with a post command the matched text and the post command. */
  lemma EmitFirst(s: string, kept: seq<Span>, index: nat, pre: Command, post: Option<Command>)
    requires Matches(kept, index, |s|) && kept != []
    ensures index <= kept[0].start <= kept[0].end <= |s|
    ensures Emit(s, kept, index, pre, post)[0] == Text(s[index..kept[0].start])
    ensures Emit(s, kept, index, pre, post)[1] == Cmd(pre)
    ensures post.Some? ==>
      && Emit(s, kept, index, pre, post)[2] == Text(s[kept[0].start..kept[0].end])
      && Emit(s, kept, index, pre, post)[3] == Cmd(post.value)
  {
  }

  /** Past the items of the first kept match, Emit continues with the Emit of
      the remaining matches. */
  lemma EmitShift(s: string, kept: seq<Span>, index: nat, pre: Command, post: Option<Command>, i: nat)
    requires Matches(kept, index, |s|) && kept != []
    requires (if post.Some? then 4 else 2) <= i < |Emit(s, kept, index, pre, post)|
    ensures Matches(kept[1..], kept[0].end, |s|)
    ensures post.Some? ==> Emit(s, kept, index, pre, post)[i] == Emit(s, kept[1..], kept[0].end, pre, post)[i - 4]
    ensures post.None? ==> Emit(s, kept, index, pre, post)[i] == Emit(s, kept[1..], kept[0].end, pre, post)[i - 2]
  {
    var t := Emit(s, kept[1..], kept[0].end, pre, post);
    EmitUnfold(s, kept, index, pre, post);
    if post.Some? {
      var head := [Text(s[index..kept[0].start]), Cmd(pre)];
      var mid := [Text(s[kept[0].start..kept[0].end]), Cmd(post.value)];
      ShiftIndex(head, mid + t, i);
      ShiftIndex(mid, t, i - 2);
    } else {
      ShiftIndex([Text(s[index..kept[0].start]), Cmd(pre)], t, i);
    }
  }

  /** Piece k of kept is piece k - 1 of kept[1..], read from the end of the
      first match. */
  lemma PieceShift(s: string, kept: seq<Span>, index: nat, k: nat)
    requires 0 < k <= |kept|
    ensures PieceStart(kept[1..], kept[0].end, k - 1) == PieceStart(kept, index, k)
    ensures PieceEnd(s, kept[1..], k - 1) == PieceEnd(s, kept, k)
  {
    if k > 1 {
      assert kept[1..][k - 2] == kept[k - 1];
    }
    if k < |kept| {
      assert kept[1..][k - 1] == kept[k];
    }
  }

  /** Without a post command, item 2k of Emit is the text before kept match
      k, or for k = |kept| the text after the last match. */
  lemma {:induction false} EmitSoundPiece(s: string, kept: seq<Span>, index: nat, pre: Command, k: nat)
    requires Matches(kept, index, |s|) && k <= |kept|
    ensures PieceStart(kept, index, k) <= PieceEnd(s, kept, k) <= |s|
    ensures Emit(s, kept, index, pre, None)[2 * k] == Text(s[PieceStart(kept, index, k)..PieceEnd(s, kept, k)])
    decreases k
  {
    PieceBounds(s, kept, index, k);
    if kept != [] {
      if k == 0 {
        EmitFirst(s, kept, index, pre, None);
      } else {
        EmitShift(s, kept, index, pre, None, 2 * k);
        EmitSoundPiece(s, kept[1..], kept[0].end, pre, k - 1);
        PieceShift(s, kept, index, k);
      }
    }
  }

  /** The same with a post command, where each kept match takes four items. */
  lemma {:induction false} EmitProsodyPiece(s: string, kept: seq<Span>, index: nat, pre: Command, post: Command, k: nat)
    requires Matches(kept, index, |s|) && k <= |kept|
    ensures PieceStart(kept, index, k) <= PieceEnd(s, kept, k) <= |s|
    ensures Emit(s, kept, index, pre, Some(post))[4 * k] == Text(s[PieceStart(kept, index, k)..PieceEnd(s, kept, k)])
    decreases k
  {
    PieceBounds(s, kept, index, k);
    if kept != [] {
      if k == 0 {
        EmitFirst(s, kept, index, pre, Some(post));
      } else {
        var t := Emit(s, kept[1..], kept[0].end, pre, Some(post));
        assert Emit(s, kept, index, pre, Some(post))[4 * k] == t[4 * (k - 1)] by {
          EmitShift(s, kept, index, pre, Some(post), 4 * k);
        }
        EmitProsodyPiece(s, kept[1..], kept[0].end, pre, post, k - 1);
        PieceShift(s, kept, index, k);
      }
    }
  }

  /** Without a post command, item 2k+1 of Emit is the pre command played at
      kept match k. */
  lemma {:induction false} EmitSoundMatch(s: string, kept: seq<Span>, index: nat, pre: Command, k: nat)
    requires Matches(kept, index, |s|) && k < |kept|
    ensures Emit(s, kept, index, pre, None)[2 * k + 1] == Cmd(pre)
    decreases k
  {
    if k == 0 {
      EmitFirst(s, kept, index, pre, None);
    } else {
      EmitShift(s, kept, index, pre, None, 2 * k + 1);
      EmitSoundMatch(s, kept[1..], kept[0].end, pre, k - 1);
    }
  }

  /** With a post command, items 4k+1 .. 4k+3 of Emit are the pre command, the
      text of kept match k and the post command. */
  lemma {:induction false} EmitProsodyMatch(s: string, kept: seq<Span>, index: nat, pre: Command, post: Command, k: nat)
    requires Matches(kept, index, |s|) && k < |kept|
    ensures kept[k].start <= kept[k].end <= |s|
    ensures Emit(s, kept, index, pre, Some(post))[4 * k + 1] == Cmd(pre)
    ensures Emit(s, kept, index, pre, Some(post))[4 * k + 2] == Text(s[kept[k].start..kept[k].end])
    ensures Emit(s, kept, index, pre, Some(post))[4 * k + 3] == Cmd(post)
    decreases k
  {
    if k == 0 {
      EmitFirst(s, kept, index, pre, Some(post));
    } else {
      EmitProsodyMatch(s, kept[1..], kept[0].end, pre, post, k - 1);
      assert kept[1..][k - 1] == kept[k];
      EmitShift(s, kept, index, pre, Some(post), 4 * k + 1);
      EmitShift(s, kept, index, pre, Some(post), 4 * k + 2);
      EmitShift(s, kept, index, pre, Some(post), 4 * k + 3);
    }
  }

  /** Without a post command, item 2k is the text before kept match k (or,
      for k = |kept|, after the last one) and item 2k+1 is the pre command
      played at match k: each sound stands where its match was. */
  lemma EmitSoundAt(s: string, kept: seq<Span>, index: nat, pre: Command, k: nat)
    requires Matches(kept, index, |s|) && k <= |kept|
    ensures PieceStart(kept, index, k) <= PieceEnd(s, kept, k) <= |s|
    ensures Emit(s, kept, index, pre, None)[2 * k] == Text(s[PieceStart(kept, index, k)..PieceEnd(s, kept, k)])
    ensures k < |kept| ==> Emit(s, kept, index, pre, None)[2 * k + 1] == Cmd(pre)
  {
    EmitSoundPiece(s, kept, index, pre, k);
    if k < |kept| {
      EmitSoundMatch(s, kept, index, pre, k);
    }
  }

  /** With a post command, kept match k occupies items 4k+1 .. 4k+3: the pre
      command, the matched text, the post command; item 4k is the text
      before it (or, for k = |kept|, after the last match). */
  lemma EmitProsodyAt(s: string, kept: seq<Span>, index: nat, pre: Command, post: Command, k: nat)
    requires Matches(kept, index, |s|) && k <= |kept|
    ensures PieceStart(kept, index, k) <= PieceEnd(s, kept, k) <= |s|
    ensures Emit(s, kept, index, pre, Some(post))[4 * k] == Text(s[PieceStart(kept, index, k)..PieceEnd(s, kept, k)])
    ensures k < |kept| ==>
      && Emit(s, kept, index, pre, Some(post))[4 * k + 1] == Cmd(pre)
      && Emit(s, kept, index, pre, Some(post))[4 * k + 2] == Text(s[kept[k].start..kept[k].end])
      && Emit(s, kept, index, pre, Some(post))[4 * k + 3] == Cmd(post)
  {
    EmitProsodyPiece(s, kept, index, pre, post, k);
    if k < |kept| {
      EmitProsodyMatch(s, kept, index, pre, post, k);
    }
  }

  /** Cutting out the kept matches removes exactly the characters they cover. */
  lemma {:induction false} GapsLength(s: string, kept: seq<Span>, index: nat)
    requires Matches(kept, index, |s|)
    ensures |Gaps(s, kept, index)| == |s| - index - Covered(kept)
    decreases |kept|
  {
    if kept != [] {
      GapsLength(s, kept[1..], kept[0].end);
    }
  }

  /** processString of an enabled rule is the layout of its kept matches
      (EmitSoundAt, EmitProsodyAt) with the empty strings filtered out
      (NonEmptyAppend, NonEmptySingle). */
  lemma ProcessStringLayout(rule: AudioRule, s: string, spans: seq<Span>, o: Oracle)
    requires Matches(spans, 0, |s|) && rule.config.enabled
    ensures Matches(Kept(s, spans, o), 0, |s|)
    ensures ProcessString(rule, s, spans, o)
         == NonEmpty(Emit(s, Kept(s, spans, o), 0, rule.speechCommand, rule.postSpeechCommand))
  {
    InternalIsEmitOfKept(s, spans, 0, rule.speechCommand, rule.postSpeechCommand, o);
  }

  /** processString of an enabled sound rule: the strings it yields spell s
      with the kept matches cut out, and it plays the rule's sound once per
      kept match. */
  lemma ProcessStringSound(rule: AudioRule, s: string, spans: seq<Span>, o: Oracle)
    requires Matches(spans, 0, |s|)
    requires rule.config.enabled && rule.postSpeechCommand.None?
    ensures Matches(Kept(s, spans, o), 0, |s|)
    ensures Texts(ProcessString(rule, s, spans, o)) == Gaps(s, Kept(s, spans, o), 0)
    ensures |Texts(ProcessString(rule, s, spans, o))| == |s| - Covered(Kept(s, spans, o))
    ensures CommandsIn(ProcessString(rule, s, spans, o)) == Repeat(rule.speechCommand, |Kept(s, spans, o)|)
  {
    InternalIsEmitOfKept(s, spans, 0, rule.speechCommand, rule.postSpeechCommand, o);
    EmitSound(s, Kept(s, spans, o), 0, rule.speechCommand);
    GapsLength(s, Kept(s, spans, o), 0);
  }

  /** processString of an enabled prosody rule: the strings it yields spell s
      itself, and the commands alternate change, restore, once per kept match. */
  lemma ProcessStringProsody(rule: AudioRule, s: string, spans: seq<Span>, o: Oracle)
    requires Matches(spans, 0, |s|)
    requires rule.config.enabled && rule.postSpeechCommand.Some?
    ensures Texts(ProcessString(rule, s, spans, o)) == s
    ensures CommandsIn(ProcessString(rule, s, spans, o))
         == Pairs(rule.speechCommand, rule.postSpeechCommand.value, |Kept(s, spans, o)|)
  {
    InternalIsEmitOfKept(s, spans, 0, rule.speechCommand, rule.postSpeechCommand, o);
    EmitProsody(s, Kept(s, spans, o), 0, rule.speechCommand, rule.postSpeechCommand.value);
    assert s[0..] == s;
  }
  /** "Click the [button]" with a sound rule whose pattern matches the
      bracketed word: the text before the match, then the sound; the empty
      piece after the match is not yielded. */
  lemma ClickTheButton(rule: AudioRule, o: Oracle)
    requires rule.config.enabled && rule.postSpeechCommand.None?
    requires !o.rendersBlank("[button]")
    ensures ProcessString(rule, "Click the [button]", [Span(10, 18)], o)
         == [Text("Click the "), Cmd(rule.speechCommand)]
  {
    var before, button := "Click the ", "[button]";
    var s := before + button;
    assert s == "Click the [button]";
    assert s[10..18] == button && s[0..10] == before && s[18..] == [];
    var sound := Cmd(rule.speechCommand);
    var out := Internal(s, [Span(10, 18)], 0, rule.speechCommand, None, o);
    assert out == [Text(before), sound] + [Text([])];
    NonEmptyAppend([Text(before), sound], [Text([])]);
    NonEmptyKeeps([Text(before), sound]);
    NonEmptySingle(Text([]));
  }
}
