/**
 * The chat front end of the bot: how an incoming buffer is classified by the
 * two expect patterns (a server PING, or a PRIVMSG whose text starts with
 * "!"), and which action a command produces.
 *
 * A buffer is a sequence of characters, one per received byte. The line
 * pattern is a bytes pattern compiled with DOTALL, so `\s` is one of the six
 * ASCII whitespace bytes and `.` matches every byte, line feed included.
 */
module IrcBot {
  import opened PyText

  // ---------------------------------------------------------------------
  // Character classes and runs.

  // `\s` in the bytes line pattern is PyText.IntSpace, the six ASCII
  // whitespace bytes; `\s` in the text argument patterns is PyText.IsSpace.

  /** `\S` in a bytes pattern. */
  predicate NotLineSpace(c: char) {
    !IntSpace(c)
  }

  /** `\S` in a text pattern. */
  predicate NotTextSpace(c: char) {
    !IsSpace(c)
  }

  /** The end of the longest run starting at i of characters satisfying `inRun`. */
  function RunEnd(s: string, i: nat, inRun: char -> bool): (j: nat)
    requires i <= |s|
    ensures i <= j <= |s|
    ensures j == |s| || !inRun(s[j])
    decreases |s| - i
  {
    if i < |s| && inRun(s[i]) then RunEnd(s, i + 1, inRun) else i
  }

  /** Every character of the run satisfies `inRun`. */
  lemma {:induction false} RunEndAll(s: string, i: nat, inRun: char -> bool)
    requires i <= |s|
    ensures forall k :: i <= k < RunEnd(s, i, inRun) ==> inRun(s[k])
    decreases |s| - i
  {
    if i < |s| && inRun(s[i]) {
      RunEndAll(s, i + 1, inRun);
    }
  }

  /** Every run from i that is followed by a character outside it ends at RunEnd. */
  lemma RunEndUnique(s: string, i: nat, j: nat, inRun: char -> bool)
    requires i <= j <= |s|
    requires forall k :: i <= k < j ==> inRun(s[k])
    ensures j <= RunEnd(s, i, inRun)
    ensures j < |s| && !inRun(s[j]) ==> j == RunEnd(s, i, inRun)
  {
    RunEndAll(s, i, inRun);
  }

  /** The last position p in [lo, hi) with s[p] == c, or -1. */
  function LastIndex(s: string, c: char, lo: nat, hi: nat): (p: int)
    requires hi <= |s|
    ensures p == -1 || (lo <= p < hi && s[p] == c)
    decreases hi
  {
    if hi <= lo then -1
    else if s[hi - 1] == c then hi - 1
    else LastIndex(s, c, lo, hi - 1)
  }

  /** No occurrence of c in [lo, hi) lies after LastIndex. */
  lemma {:induction false} LastIndexIsLast(s: string, c: char, lo: nat, hi: nat, k: nat)
    requires hi <= |s| && lo <= k < hi && s[k] == c
    ensures k <= LastIndex(s, c, lo, hi)
    decreases hi
  {
    if s[hi - 1] != c {
      LastIndexIsLast(s, c, lo, hi - 1, k);
    }
  }

  /** The start of the last CR LF pair that begins at or after lo, or -1. */
  function LastCrLf(s: string, lo: nat): (p: int)
    ensures p == -1 || (lo <= p && p + 2 <= |s| && s[p] == '\r' && s[p + 1] == '\n')
    decreases |s|
  {
    if |s| < lo + 2 then -1
    else if s[|s| - 2] == '\r' && s[|s| - 1] == '\n' then |s| - 2
    else LastCrLf(s[..|s| - 1], lo)
  }

  /** No CR LF pair at or after lo starts after LastCrLf. */
  lemma {:induction false} LastCrLfIsLast(s: string, lo: nat, k: nat)
    requires lo <= k && k + 2 <= |s| && s[k] == '\r' && s[k + 1] == '\n'
    ensures k <= LastCrLf(s, lo)
    decreases |s|
  {
    if !(s[|s| - 2] == '\r' && s[|s| - 1] == '\n') {
      var t := s[..|s| - 1];
      assert t[k] == s[k] && t[k + 1] == s[k + 1];
      LastCrLfIsLast(t, lo, k);
    }
  }

  // ---------------------------------------------------------------------
  // The PING pattern.

  const PingLine: string := "PING :tmi.twitch.tv\r\n"

  predicate PingAt(s: string, i: nat) {
    i + |PingLine| <= |s| && s[i..i + |PingLine|] == PingLine
  }

  // ---------------------------------------------------------------------
  // The PRIVMSG pattern  :(\S+)!(\S+)\s+PRIVMSG\s+(\S+)\s+:!(\S+)(.*)\r\n
  // taken in three stretches: the sender, the verb and target, the command.

  /** `:(\S+)!(\S+)` from i to hostEnd, with the user and host split at bang. */
  ghost predicate IsSender(s: string, i: nat, bang: nat, hostEnd: nat) {
    && i + 1 < bang && bang + 1 < hostEnd <= |s|
    && s[i] == ':' && s[bang] == '!'
    && (forall k :: i + 1 <= k < hostEnd ==> NotLineSpace(s[k]))
  }

  /** `\s+PRIVMSG\s+(\S+)\s+` from hostEnd to mark. */
  ghost predicate IsVerbTarget(s: string, hostEnd: nat, verb: nat, targetStart: nat, targetEnd: nat, mark: nat) {
    && hostEnd < verb && verb + 7 < targetStart < targetEnd < mark <= |s|
    && (forall k :: hostEnd <= k < verb ==> IntSpace(s[k]))
    && s[verb..verb + 7] == "PRIVMSG"
    && (forall k :: verb + 7 <= k < targetStart ==> IntSpace(s[k]))
    && (forall k :: targetStart <= k < targetEnd ==> NotLineSpace(s[k]))
    && (forall k :: targetEnd <= k < mark ==> IntSpace(s[k]))
  }

  /** `:!(\S+)(.*)\r\n` from mark: `.` matches every character here (DOTALL). */
  ghost predicate IsCommand(s: string, mark: nat, commandEnd: nat, crlf: nat) {
    && mark + 2 < commandEnd <= crlf && crlf + 2 <= |s|
    && s[mark] == ':' && s[mark + 1] == '!'
    && (forall k :: mark + 2 <= k < commandEnd ==> NotLineSpace(s[k]))
    && s[crlf] == '\r' && s[crlf + 1] == '\n'
  }

  /**
   * Positions at which a match starting at i splits the buffer: the '!'
   * after the user, the end of the host, the start of "PRIVMSG", the target's
   * bounds, the ":!" mark, the end of the command, and the final CR LF.
   */
  datatype Cut = Cut(bang: nat, hostEnd: nat, verb: nat, targetStart: nat, targetEnd: nat,
                     mark: nat, commandEnd: nat, crlf: nat)

  /** The pattern matches at i with these split points (any of its matches, greedy or not). */
  ghost predicate IsCut(s: string, i: nat, d: Cut) {
    && IsSender(s, i, d.bang, d.hostEnd)
    && IsVerbTarget(s, d.hostEnd, d.verb, d.targetStart, d.targetEnd, d.mark)
    && IsCommand(s, d.mark, d.commandEnd, d.crlf)
  }

  /** The sender as the engine matches it: the user runs to the last '!' that leaves a host. */
  function MatchSender(s: string, i: nat): (r: Option<(nat, nat)>)
    requires i <= |s|
    ensures r.Some? ==> i + 1 < r.value.0 < r.value.1 <= |s|
    ensures r.Some? ==> r.value.1 == |s| || IntSpace(s[r.value.1])
  {
    if i >= |s| || s[i] != ':' then None
    else
      var hostEnd := RunEnd(s, i + 1, NotLineSpace);
      if hostEnd < i + 4 then None
      else
        var bang := LastIndex(s, '!', i + 2, hostEnd - 1);
        if bang < 0 then None else Some((bang, hostEnd))
  }

  lemma MatchSenderSound(s: string, i: nat)
    requires i <= |s| && MatchSender(s, i).Some?
    ensures IsSender(s, i, MatchSender(s, i).value.0, MatchSender(s, i).value.1)
  {
    RunEndAll(s, i + 1, NotLineSpace);
  }

  lemma MatchSenderComplete(s: string, i: nat, bang: nat, hostEnd: nat)
    requires i <= |s| && IsSender(s, i, bang, hostEnd)
    requires hostEnd < |s| && IntSpace(s[hostEnd])
    ensures MatchSender(s, i).Some?
    ensures bang <= MatchSender(s, i).value.0 && MatchSender(s, i).value.1 == hostEnd
  {
    RunEndUnique(s, i + 1, hostEnd, NotLineSpace);
    LastIndexIsLast(s, '!', i + 2, hostEnd - 1, bang);
  }

  /** The verb and target as the engine matches them; every run is maximal. */
  function MatchVerbTarget(s: string, hostEnd: nat): (r: Option<(nat, nat, nat, nat)>)
    requires hostEnd <= |s|
  {
    var verb := RunEnd(s, hostEnd, IntSpace);
    if verb == hostEnd || verb + 7 > |s| || s[verb..verb + 7] != "PRIVMSG" then None
    else
      var targetStart := RunEnd(s, verb + 7, IntSpace);
      var targetEnd := RunEnd(s, targetStart, NotLineSpace);
      var mark := RunEnd(s, targetEnd, IntSpace);
      if targetStart == verb + 7 || targetEnd == targetStart || mark == targetEnd then None
      else Some((verb, targetStart, targetEnd, mark))
  }

  lemma MatchVerbTargetSound(s: string, hostEnd: nat)
    requires hostEnd <= |s| && MatchVerbTarget(s, hostEnd).Some?
    ensures var (verb, targetStart, targetEnd, mark) := MatchVerbTarget(s, hostEnd).value;
      IsVerbTarget(s, hostEnd, verb, targetStart, targetEnd, mark)
  {
    var (verb, targetStart, targetEnd, _) := MatchVerbTarget(s, hostEnd).value;
    RunEndAll(s, hostEnd, IntSpace);
    RunEndAll(s, verb + 7, IntSpace);
    RunEndAll(s, targetStart, NotLineSpace);
    RunEndAll(s, targetEnd, IntSpace);
  }

  lemma MatchVerbTargetComplete(s: string, hostEnd: nat, verb: nat, targetStart: nat, targetEnd: nat, mark: nat)
    requires IsVerbTarget(s, hostEnd, verb, targetStart, targetEnd, mark)
    requires mark < |s| && NotLineSpace(s[mark])
    ensures MatchVerbTarget(s, hostEnd) == Some((verb, targetStart, targetEnd, mark))
  {
    assert s[verb] == s[verb..verb + 7][0];
    RunEndUnique(s, hostEnd, verb, IntSpace);
    RunEndUnique(s, verb + 7, targetStart, IntSpace);
    RunEndUnique(s, targetStart, targetEnd, NotLineSpace);
    RunEndUnique(s, targetEnd, mark, IntSpace);
  }

  /** The command as the engine matches it: the whole non-space run, then up to the last CR LF. */
  function MatchCommand(s: string, mark: nat): (r: Option<(nat, nat)>)
    requires mark <= |s|
    ensures r.Some? ==> mark + 2 < r.value.0 <= r.value.1 && r.value.1 + 2 <= |s|
  {
    if mark + 2 > |s| || s[mark] != ':' || s[mark + 1] != '!' then None
    else
      var commandEnd := RunEnd(s, mark + 2, NotLineSpace);
      var crlf := LastCrLf(s, commandEnd);
      if commandEnd == mark + 2 || crlf < 0 then None else Some((commandEnd, crlf))
  }

  lemma MatchCommandSound(s: string, mark: nat)
    requires mark <= |s| && MatchCommand(s, mark).Some?
    ensures IsCommand(s, mark, MatchCommand(s, mark).value.0, MatchCommand(s, mark).value.1)
  {
    RunEndAll(s, mark + 2, NotLineSpace);
  }

  lemma MatchCommandComplete(s: string, mark: nat, commandEnd: nat, crlf: nat)
    requires IsCommand(s, mark, commandEnd, crlf)
    ensures MatchCommand(s, mark).Some?
    ensures commandEnd <= MatchCommand(s, mark).value.0 && crlf <= MatchCommand(s, mark).value.1
  {
    RunEndUnique(s, mark + 2, commandEnd, NotLineSpace);
    RunEndAll(s, mark + 2, NotLineSpace);
    var end := RunEnd(s, mark + 2, NotLineSpace);
    assert end <= crlf;
    LastCrLfIsLast(s, end, crlf);
  }

  /**
   * The match the regular-expression engine reports at i: each greedy group
   * takes as much as still lets the rest match, so the user runs to the last
   * usable '!', the command is the whole non-space run after ":!", and the
   * rest runs to the last CR LF in the buffer.
   */
  function MatchAt(s: string, i: nat): (m: Option<Cut>)
    requires i <= |s|
  {
    match MatchSender(s, i)
    case None => None
    case Some((bang, hostEnd)) =>
      match MatchVerbTarget(s, hostEnd)
      case None => None
      case Some((verb, targetStart, targetEnd, mark)) =>
        match MatchCommand(s, mark)
        case None => None
        case Some((commandEnd, crlf)) =>
          Some(Cut(bang, hostEnd, verb, targetStart, targetEnd, mark, commandEnd, crlf))
  }

  /** What the engine reports is a match. */
  lemma MatchAtSound(s: string, i: nat)
    requires i <= |s| && MatchAt(s, i).Some?
    ensures IsCut(s, i, MatchAt(s, i).value)
  {
    var d := MatchAt(s, i).value;
    MatchSenderSound(s, i);
    MatchVerbTargetSound(s, d.hostEnd);
    MatchCommandSound(s, d.mark);
  }

  /**
   * Whenever the pattern can match at i, the engine reports a match there,
   * and it is the greedy one: no other way of matching has a longer user,
   * command or rest, and every other split point is forced.
   */
  lemma MatchAtComplete(s: string, i: nat, d: Cut)
    requires i <= |s| && IsCut(s, i, d)
    ensures MatchAt(s, i).Some?
    ensures var m := MatchAt(s, i).value;
      && d.bang <= m.bang && d.commandEnd <= m.commandEnd && d.crlf <= m.crlf
      && m.hostEnd == d.hostEnd && m.verb == d.verb && m.targetStart == d.targetStart
      && m.targetEnd == d.targetEnd && m.mark == d.mark
  {
    MatchSenderComplete(s, i, d.bang, d.hostEnd);
    MatchVerbTargetComplete(s, d.hostEnd, d.verb, d.targetStart, d.targetEnd, d.mark);
    MatchCommandComplete(s, d.mark, d.commandEnd, d.crlf);
  }

  /** A match always contains the ":!" that marks a command. */
  lemma MatchHasMark(s: string, i: nat)
    requires i <= |s| && MatchAt(s, i).Some?
    ensures var k := MatchAt(s, i).value.mark; k + 1 < |s| && s[k] == ':' && s[k + 1] == '!'
  {
  }

  // ---------------------------------------------------------------------
  // expect_list: the earliest match wins, the PING pattern on a tie.

  datatype Event =
    | Ping(end: nat)
    | Message(user: string, host: string, target: string, command: string, rest: string, end: nat)
    | Silence

  /** One of the two patterns matches at k. */
  predicate MatchesAt(s: string, k: nat)
    requires k <= |s|
  {
    PingAt(s, k) || MatchAt(s, k).Some?
  }

  /** The event whose match starts at k: the PING pattern is tried first. */
  function EventAt(s: string, k: nat): (e: Event)
    requires k <= |s|
    ensures e.Ping? <==> PingAt(s, k)
    ensures e.Message? <==> !PingAt(s, k) && MatchAt(s, k).Some?
  {
    if PingAt(s, k) then Ping(k + |PingLine|)
    else
      match MatchAt(s, k)
      case None => Silence
      case Some(d) =>
        Message(s[k + 1..d.bang], s[d.bang + 1..d.hostEnd], s[d.targetStart..d.targetEnd],
                s[d.mark + 2..d.commandEnd], s[d.commandEnd..d.crlf], d.crlf + 2)
  }

  /** The earliest position at or after k where a pattern matches, or |s|. */
  function FirstMatch(s: string, k: nat): (j: nat)
    requires k <= |s|
    ensures k <= j <= |s|
    ensures forall j' :: k <= j' < j ==> !MatchesAt(s, j')
    ensures j < |s| ==> MatchesAt(s, j)
    decreases |s| - k
  {
    if k == |s| || MatchesAt(s, k) then k else FirstMatch(s, k + 1)
  }

  /** What one expect_list call on the buffer reports (Silence: it keeps waiting until its timeout). */
  function NextEvent(s: string): Event {
    EventAt(s, FirstMatch(s, 0))
  }

  /** expect_list keeps waiting exactly when neither pattern matches anywhere in the buffer. */
  lemma SilenceIffNoMatch(s: string)
    ensures NextEvent(s).Silence? <==> forall k :: 0 <= k < |s| ==> !MatchesAt(s, k)
  {
    var j := FirstMatch(s, 0);
    assert j == |s| ==> !PingAt(s, j) && MatchAt(s, j).None?;
  }

  // ---------------------------------------------------------------------
  // The command arguments: re.match on the decoded rest of the line.

  /** The text pattern `\s+(\S+)` can match at i with the token from start to end. */
  ghost predicate IsToken(s: string, i: nat, start: nat, end: nat) {
    && i < start < end <= |s|
    && (forall k :: i <= k < start ==> IsSpace(s[k]))
    && (forall k :: start <= k < end ==> NotTextSpace(s[k]))
  }

  /**
   * `\s+(\S+)` matched at i: the bounds of the token, or None. Leading
   * whitespace is required, and the token is the whole non-space run after it.
   */
  function Token(s: string, i: nat): (r: Option<(nat, nat)>)
    requires i <= |s|
    ensures r.Some? ==> IsToken(s, i, r.value.0, r.value.1)
    ensures r.Some? ==> r.value.1 == |s| || IsSpace(s[r.value.1])
  {
    var start := RunEnd(s, i, IsSpace);
    var end := RunEnd(s, start, NotTextSpace);
    RunEndAll(s, i, IsSpace);
    RunEndAll(s, start, NotTextSpace);
    if start == i || end == start then None else Some((start, end))
  }

  /** Whenever the pattern can match, Token finds the match, with the longest token. */
  lemma TokenComplete(s: string, i: nat, start: nat, end: nat)
    requires i <= |s| && IsToken(s, i, start, end)
    ensures Token(s, i).Some? && Token(s, i).value.0 == start && end <= Token(s, i).value.1
  {
    RunEndUnique(s, i, start, IsSpace);
    RunEndUnique(s, start, end, NotTextSpace);
  }

  /** `re.match(r"\s+(\S+)\s+(\S+)", rest)`: the colour and region tokens of `!c`. */
  function ColourArgs(rest: string): (r: Option<(string, string)>)
    ensures r.Some? ==> IsTextWord(r.value.0) && IsTextWord(r.value.1)
  {
    match Token(rest, 0)
    case None => None
    case Some((a0, a1)) =>
      match Token(rest, a1)
      case None => None
      case Some((b0, b1)) => Some((rest[a0..a1], rest[b0..b1]))
  }

  /** `re.match(r"\s+(\S+)", rest)`: the image name of `!img`. */
  function ImageArg(rest: string): (r: Option<string>)
    ensures r.Some? ==> IsTextWord(r.value)
  {
    match Token(rest, 0)
    case None => None
    case Some((a0, a1)) => Some(rest[a0..a1])
  }

  // ---------------------------------------------------------------------
  // Dispatch.

  datatype Action =
    | SendLine(line: string)
    | UpdateRegion(color: string, region: string)
    | UpdateImage(name: string)
    | NoAction

  const Pong: string := "PONG :tmi.twitch.tv"
  const HelpText: string := "Commands: !c #RRGGBB X, !img XYZ.png"

  /** The help reply sent to the channel. */
  function HelpLine(channel: string): string {
    "PRIVMSG " + channel + " :" + HelpText
  }

  /**
   * The action for one event. A PING is answered; a message acts only when it
   * was sent to the configured channel and names a known command; an `!img`
   * without a token raises inside the handler, which swallows it.
   */
  function Respond(channel: string, e: Event): (a: Action)
    ensures e.Silence? ==> a == NoAction
    ensures e.Message? && e.target != channel ==> a == NoAction
    ensures a.SendLine? ==> e.Ping? || (e.Message? && e.command == "colorhelp")
    ensures a.UpdateRegion? ==> e.Message? && e.target == channel && e.command == "c"
    ensures a.UpdateImage? ==> e.Message? && e.target == channel && e.command == "img"
  {
    match e
    case Ping(_) => SendLine(Pong)
    case Silence => NoAction
    case Message(_, _, target, command, rest, _) =>
      if channel != target then NoAction
      else if command == "colorhelp" then SendLine(HelpLine(channel))
      else if command == "c" then
        match ColourArgs(rest)
        case None => NoAction
        case Some((color, region)) => UpdateRegion(color, region)
      else if command == "img" then
        match ImageArg(rest)
        case None => NoAction
        case Some(name) => UpdateImage(name)
      else NoAction
  }

  // ---------------------------------------------------------------------
  // Properties.

  /** A buffer that starts with the server's PING is answered with PONG. */
  lemma PingAnswered(channel: string, tail: string)
    ensures NextEvent(PingLine + tail) == Ping(|PingLine|)
    ensures Respond(channel, NextEvent(PingLine + tail)) == SendLine(Pong)
  {
    var s := PingLine + tail;
    assert s[0..|PingLine|] == PingLine;
  }

  /** The line a client sends for a chat message. */
  function PrivmsgLine(user: string, host: string, target: string, command: string, rest: string): string {
    ":" + user + "!" + host + " PRIVMSG " + target + " :!" + command + rest + "\r\n"
  }

  /** A non-empty run of non-space characters, as `\S+` in the line pattern. */
  predicate IsWord(w: string) {
    |w| > 0 && forall k :: 0 <= k < |w| ==> NotLineSpace(w[k])
  }

  /**
   * A well-formed chat line splits back into the parts it was built from,
   * provided the host has no '!' (the user would otherwise run to the last
   * one) and the rest does not continue the command word.
   */
  lemma PrivmsgRoundTrip(user: string, host: string, target: string, command: string, rest: string)
    requires IsWord(user) && IsWord(host) && IsWord(target) && IsWord(command)
    requires '!' !in host
    requires rest == [] || IntSpace(rest[0])
    ensures var s := PrivmsgLine(user, host, target, command, rest);
      NextEvent(s) == Message(user, host, target, command, rest, |s|)
  {
    var s := PrivmsgLine(user, host, target, command, rest);
    LineLayout(user, host, target, command, rest);
    LaidOutLineParses(s, user, host, target, command, rest);
  }

  /** Where each part of a chat line sits, given the lengths of the parts. */
  ghost predicate IsLaidOut(s: string, user: string, host: string, target: string, command: string, rest: string) {
    var b := 1 + |user|;
    var h := b + 1 + |host|;
    var t := h + 9;
    var m := t + |target| + 1;
    var c := m + 2 + |command|;
    && |s| == c + |rest| + 2
    && s[0] == ':' && s[1..b] == user && s[b] == '!' && s[b + 1..h] == host
    && s[h] == ' ' && s[h + 1..h + 8] == "PRIVMSG" && s[h + 8] == ' '
    && s[t..t + |target|] == target && s[t + |target|] == ' '
    && s[m] == ':' && s[m + 1] == '!' && s[m + 2..c] == command
    && s[c..c + |rest|] == rest && s[c + |rest|] == '\r' && s[c + |rest| + 1] == '\n'
  }

  lemma LineLayout(user: string, host: string, target: string, command: string, rest: string)
    ensures IsLaidOut(PrivmsgLine(user, host, target, command, rest), user, host, target, command, rest)
  {
  }

  lemma LaidOutLineParses(s: string, user: string, host: string, target: string, command: string, rest: string)
    requires IsLaidOut(s, user, host, target, command, rest)
    requires IsWord(user) && IsWord(host) && IsWord(target) && IsWord(command)
    requires '!' !in host
    requires rest == [] || IntSpace(rest[0])
    ensures NextEvent(s) == Message(user, host, target, command, rest, |s|)
  {
    var d := LaidOutCut(s, user, host, target, command, rest);
    MessageAtStart(s, d);
  }

  /** The match the PRIVMSG pattern finds at the start of a laid-out line. */
  lemma LaidOutCut(s: string, user: string, host: string, target: string, command: string, rest: string)
    returns (d: Cut)
    requires IsLaidOut(s, user, host, target, command, rest)
    requires IsWord(user) && IsWord(host) && IsWord(target) && IsWord(command)
    requires '!' !in host
    requires rest == [] || IntSpace(rest[0])
    ensures MatchAt(s, 0) == Some(d)
    ensures d.bang == 1 + |user| && d.hostEnd == d.bang + 1 + |host|
    ensures d.targetStart == d.hostEnd + 9 && d.targetEnd == d.targetStart + |target|
    ensures d.mark == d.targetEnd + 1 && d.commandEnd == d.mark + 2 + |command| && d.crlf == d.commandEnd + |rest|
  {
    var b := 1 + |user|;
    var h := b + 1 + |host|;
    var t := h + 9;
    var m := t + |target| + 1;
    var c := m + 2 + |command|;
    SenderCut(s, user, host, target, command, rest);
    VerbCut(s, h, target);
    CommandCut(s, user, host, target, command, rest);
    d := Cut(b, h, h + 1, t, t + |target|, m, c, c + |rest|);
    MatchAtParts(s, 0, d);
  }

  /** A buffer starting with ':' where the PRIVMSG pattern matches: that match is the event. */
  lemma MessageAtStart(s: string, d: Cut)
    requires |s| > 0 && s[0] == ':' && MatchAt(s, 0) == Some(d)
    ensures NextEvent(s) == Message(s[1..d.bang], s[d.bang + 1..d.hostEnd], s[d.targetStart..d.targetEnd],
                                    s[d.mark + 2..d.commandEnd], s[d.commandEnd..d.crlf], d.crlf + 2)
  {
    assert !PingAt(s, 0) by {
      assert s[0] != PingLine[0];
    }
    assert FirstMatch(s, 0) == 0;
  }

  /** MatchAt assembled from its three stages. */
  lemma MatchAtParts(s: string, i: nat, d: Cut)
    requires i <= |s|
    requires MatchSender(s, i) == Some((d.bang, d.hostEnd))
    requires MatchVerbTarget(s, d.hostEnd) == Some((d.verb, d.targetStart, d.targetEnd, d.mark))
    requires MatchCommand(s, d.mark) == Some((d.commandEnd, d.crlf))
    ensures MatchAt(s, i) == Some(d)
  {
  }

  lemma SenderCut(s: string, user: string, host: string, target: string, command: string, rest: string)
    requires IsLaidOut(s, user, host, target, command, rest)
    requires IsWord(user) && IsWord(host) && '!' !in host
    ensures MatchSender(s, 0) == Some((1 + |user|, 2 + |user| + |host|))
  {
    var bang := 1 + |user|;
    var hostEnd := bang + 1 + |host|;
    assert IsSender(s, 0, bang, hostEnd) by {
      forall k | 1 <= k < hostEnd ensures NotLineSpace(s[k]) {
        if k < bang {
          assert s[k] == s[1..bang][k - 1] == user[k - 1];
        } else if k > bang {
          assert s[k] == s[bang + 1..hostEnd][k - bang - 1] == host[k - bang - 1];
        }
      }
    }
    MatchSenderComplete(s, 0, bang, hostEnd);
  }

  /** The verb and target of a line laid out with single spaces, from the end of the host. */
  lemma VerbCut(s: string, h: nat, target: string)
    requires h + 10 + |target| < |s| && IsWord(target)
    requires s[h] == ' ' && s[h + 1..h + 8] == "PRIVMSG" && s[h + 8] == ' '
    requires s[h + 9..h + 9 + |target|] == target && s[h + 9 + |target|] == ' ' && s[h + 10 + |target|] == ':'
    ensures MatchVerbTarget(s, h) == Some((h + 1, h + 9, h + 9 + |target|, h + 10 + |target|))
  {
    var t := h + 9;
    assert IsVerbTarget(s, h, h + 1, t, t + |target|, t + |target| + 1) by {
      forall k | t <= k < t + |target| ensures NotLineSpace(s[k]) {
        assert s[k] == s[t..t + |target|][k - t] == target[k - t];
      }
    }
    MatchVerbTargetComplete(s, h, h + 1, t, t + |target|, t + |target| + 1);
  }

  lemma CommandCut(s: string, user: string, host: string, target: string, command: string, rest: string)
    requires IsLaidOut(s, user, host, target, command, rest)
    requires IsWord(command)
    requires rest == [] || IntSpace(rest[0])
    ensures var m := 12 + |user| + |host| + |target|;
      var c := m + 2 + |command|;
      MatchCommand(s, m) == Some((c, c + |rest|))
  {
    var m := 12 + |user| + |host| + |target|;
    var c := m + 2 + |command|;
    assert c < |s| ==> IntSpace(s[c]) by {
      if rest != [] {
        assert s[c] == s[c..c + |rest|][0];
      }
    }
    assert IsCommand(s, m, c, c + |rest|) by {
      forall k | m + 2 <= k < c ensures NotLineSpace(s[k]) {
        assert s[k] == s[m + 2..c][k - m - 2] == command[k - m - 2];
      }
    }
    MatchCommandComplete(s, m, c, c + |rest|);
    RunEndUnique(s, m + 2, c, NotLineSpace);
  }

  /** A buffer with no ":!" anywhere holds no command. */
  lemma NoMarkNoCommand(s: string)
    requires forall k :: 0 <= k < |s| - 1 ==> !(s[k] == ':' && s[k + 1] == '!')
    ensures !NextEvent(s).Message?
  {
    var j := FirstMatch(s, 0);
    if MatchAt(s, j).Some? {
      MatchHasMark(s, j);
    }
  }

  /** A command sent to any other target than the configured channel does nothing. */
  lemma OtherChannelIgnored(channel: string, e: Event)
    requires e.Message? && e.target != channel
    ensures Respond(channel, e) == NoAction
  {
  }

  /** `!colorhelp` on the channel sends exactly the help line. */
  lemma HelpReply(channel: string, e: Event)
    requires e.Message? && e.target == channel && e.command == "colorhelp"
    ensures Respond(channel, e) == SendLine("PRIVMSG " + channel + " :Commands: !c #RRGGBB X, !img XYZ.png")
  {
  }

  /** A non-empty run of whitespace, as `\s+` in a text pattern. */
  predicate IsGap(w: string) {
    |w| > 0 && forall k :: 0 <= k < |w| ==> IsSpace(w[k])
  }

  /** A non-empty run of non-space characters, as `\S+` in a text pattern. */
  predicate IsTextWord(w: string) {
    |w| > 0 && forall k :: 0 <= k < |w| ==> NotTextSpace(w[k])
  }

  /** Text that cannot continue a word: empty, or starting with whitespace. */
  predicate EndsWord(t: string) {
    t == [] || IsSpace(t[0])
  }

  /**
   * `!c` passes on the two tokens after it verbatim, whatever follows them;
   * without two whitespace-led tokens it does nothing.
   */
  lemma ColourCommand(channel: string, e: Event)
    requires e.Message? && e.target == channel && e.command == "c"
    ensures ColourArgs(e.rest).None? ==> Respond(channel, e) == NoAction
    ensures ColourArgs(e.rest).Some? ==>
      Respond(channel, e) == UpdateRegion(ColourArgs(e.rest).value.0, ColourArgs(e.rest).value.1)
    ensures forall w1, a, w2, b, tail ::
      IsGap(w1) && IsTextWord(a) && IsGap(w2) && IsTextWord(b) && EndsWord(tail) &&
      e.rest == w1 + a + w2 + b + tail ==>
      Respond(channel, e) == UpdateRegion(a, b)
  {
    forall w1, a, w2, b, tail |
      IsGap(w1) && IsTextWord(a) && IsGap(w2) && IsTextWord(b) && EndsWord(tail) &&
      e.rest == w1 + a + w2 + b + tail
      ensures Respond(channel, e) == UpdateRegion(a, b)
    {
      ColourArgsOf(e.rest, w1, a, w2, b, tail);
    }
  }

  lemma ColourArgsOf(rest: string, w1: string, a: string, w2: string, b: string, tail: string)
    requires IsGap(w1) && IsTextWord(a) && IsGap(w2) && IsTextWord(b) && EndsWord(tail)
    requires rest == w1 + a + w2 + b + tail
    ensures ColourArgs(rest) == Some((a, b))
  {
    var after := w2 + b + tail;
    assert after[0] == w2[0];
    Regroup(rest, w1, a, w2, b, tail);
    WordAt(rest, 0, w1, a, after);
    WordAt(rest, |w1| + |a|, w2, b, tail);
    ColourArgsAt(rest, |w1|, |w1| + |a|, |w1| + |a| + |w2|, |w1| + |a| + |w2| + |b|);
  }

  /** The suffixes of `t + u + v + w + x` that the two tokens are read from. */
  lemma Regroup(s: string, t: string, u: string, v: string, w: string, x: string)
    requires s == t + u + v + w + x
    ensures s[0..] == t + u + (v + w + x)
    ensures s[|t| + |u|..] == v + w + x
  {
    assert s == (t + u) + (v + w + x);
  }

  /** Two tokens, each ended by whitespace or the end of the text, are the arguments of `!c`. */
  lemma ColourArgsAt(rest: string, a0: nat, a1: nat, b0: nat, b1: nat)
    requires IsToken(rest, 0, a0, a1) && IsToken(rest, a1, b0, b1)
    requires b1 == |rest| || IsSpace(rest[b1])
    ensures ColourArgs(rest) == Some((rest[a0..a1], rest[b0..b1]))
  {
    TokenAt(rest, 0, a0, a1);
    TokenAt(rest, a1, b0, b1);
  }

  /** Whitespace, a word and text that does not continue it, at i: the pattern's match there. */
  lemma WordAt(s: string, i: nat, w: string, a: string, after: string)
    requires i <= |s| && s[i..] == w + a + after
    requires IsGap(w) && IsTextWord(a) && EndsWord(after)
    ensures IsToken(s, i, i + |w|, i + |w| + |a|)
    ensures i + |w| + |a| == |s| || IsSpace(s[i + |w| + |a|])
    ensures s[i + |w|..i + |w| + |a|] == a
  {
    var start := i + |w|;
    var end := start + |a|;
    forall k | i <= k < start ensures IsSpace(s[k]) {
      assert s[k] == s[i..][k - i] == w[k - i];
    }
    forall k | start <= k < end ensures NotTextSpace(s[k]) {
      assert s[k] == s[i..][k - i] == a[k - start];
    }
    assert end < |s| ==> s[end] == s[i..][end - i] == after[0];
    assert s[start..end] == s[i..][|w|..|w| + |a|];
  }

  /** A token ended by whitespace or the end of the text is exactly what Token reports. */
  lemma TokenAt(s: string, i: nat, start: nat, end: nat)
    requires i <= |s| && IsToken(s, i, start, end)
    requires end == |s| || IsSpace(s[end])
    ensures Token(s, i) == Some((start, end))
  {
    TokenComplete(s, i, start, end);
    RunEndUnique(s, start, end, NotTextSpace);
  }

  /** `!img` passes on the image token; without one it does nothing. */
  lemma ImageCommand(channel: string, e: Event)
    requires e.Message? && e.target == channel && e.command == "img"
    ensures ImageArg(e.rest).None? ==> Respond(channel, e) == NoAction
    ensures ImageArg(e.rest).Some? ==> Respond(channel, e) == UpdateImage(ImageArg(e.rest).value)
    ensures forall w, name, tail ::
      IsGap(w) && IsTextWord(name) && EndsWord(tail) && e.rest == w + name + tail ==>
      Respond(channel, e) == UpdateImage(name)
  {
    forall w, name, tail | IsGap(w) && IsTextWord(name) && EndsWord(tail) && e.rest == w + name + tail
      ensures Respond(channel, e) == UpdateImage(name)
    {
      ImageArgOf(e.rest, w, name, tail);
    }
  }

  /** Whitespace, a word and text that does not continue it: the word is the image name. */
  lemma ImageArgOf(rest: string, w: string, name: string, tail: string)
    requires IsGap(w) && IsTextWord(name) && EndsWord(tail)
    requires rest == w + name + tail
    ensures ImageArg(rest) == Some(name)
  {
    assert rest[0..] == rest;
    WordAt(rest, 0, w, name, tail);
    TokenAt(rest, 0, |w|, |w| + |name|);
  }

  /**
   * The image token is the first run of non-space characters, and it must
   * be preceded by whitespace.
   */
  lemma ImageArgShape(rest: string) returns (w: string, tail: string)
    requires ImageArg(rest).Some?
    ensures var name := ImageArg(rest).value;
      IsTextWord(name) && IsGap(w) && EndsWord(tail) && rest == w + name + tail
  {
    var (a0, a1) := Token(rest, 0).value;
    var name := rest[a0..a1];
    w, tail := rest[..a0], rest[a1..];
    assert rest == w + name + tail;
    assert forall k :: 0 <= k < |w| ==> w[k] == rest[k];
    assert forall k :: 0 <= k < |name| ==> name[k] == rest[a0 + k];
    assert tail != [] ==> tail[0] == rest[a1];
  }

  /**
   * The converse of ColourArgsOf: the colour and region arguments come from
   * exactly that shape of the text, whitespace before each of the two words
   * and nothing continuing the second.
   */
  lemma ColourArgsShape(rest: string) returns (w1: string, w2: string, tail: string)
    requires ColourArgs(rest).Some?
    ensures var (a, b) := ColourArgs(rest).value;
      IsGap(w1) && IsTextWord(a) && IsGap(w2) && IsTextWord(b) && EndsWord(tail) &&
      rest == w1 + a + w2 + b + tail
  {
    var (a0, a1) := Token(rest, 0).value;
    var (b0, b1) := Token(rest, a1).value;
    var a, b := rest[a0..a1], rest[b0..b1];
    w1, w2, tail := rest[..a0], rest[a1..b0], rest[b1..];
    assert rest == w1 + a + w2 + b + tail;
    assert forall k :: 0 <= k < |w1| ==> w1[k] == rest[k];
    assert forall k :: 0 <= k < |w2| ==> w2[k] == rest[a1 + k];
    assert forall k :: 0 <= k < |a| ==> a[k] == rest[a0 + k];
    assert forall k :: 0 <= k < |b| ==> b[k] == rest[b0 + k];
    assert tail != [] ==> tail[0] == rest[b1];
  }

  /** Command names are compared exactly: anything but the three known names does nothing. */
  lemma UnknownCommandIgnored(channel: string, e: Event)
    requires e.Message? && e.command != "colorhelp" && e.command != "c" && e.command != "img"
    ensures Respond(channel, e) == NoAction
  {
  }
}
