/**
  The giveaway engine of index.js: the module-level `giveaways` store
  (index.js:23) and the three handlers that change it: `/run` posted in a
  channel creates a giveaway (index.js:88-121), a "Participate" button press
  joins it (index.js:123-158), and `/draw` closes the latest open giveaway of
  the chat and picks its winners (index.js:168-184).

  Messaging, the spreadsheet and the JSON file are left out: each handler is
  modelled by the change it makes to the store and by the text it hands back.
  The giveaway id (a UUID), the announcement's message id, the sheet id and
  url, the clock and the random source are parameters.
 */
module Giveaways {
  import opened Wrappers
  import opened Text
  import opened UtcDate
  import opened FisherYates

  datatype Participant = Participant(id: int, username: string, time: string)

  /** One record of the store, with the field names of index.js:109-119. */
  datatype Giveaway = Giveaway(
    id: string,
    channelId: string,
    messageId: int,
    sheetId: string,
    participants: seq<Participant>,
    url: string,
    format: string,
    count: nat,
    active: bool)

  const DEFAULT_FORMAT: string := "\U{1F389} Winner: {username}"
  const DEFAULT_COUNT: nat := 10
  const PLACEHOLDER: string := "{username}"
  const RUN_COMMAND: string := "/run"
  const JOIN_PREFIX: string := "join_"

  function ParticipantId(p: Participant): int {
    p.id
  }

  ghost predicate DistinctIds(ps: seq<Participant>) {
    DistinctBy(ps, ParticipantId)
  }

  /** Some participant has the given id. */
  predicate HasParticipant(ps: seq<Participant>, id: int) {
    exists i :: 0 <= i < |ps| && ps[i].id == id
  }

  /**
    `participants.find(p => p.id === userId)` (index.js:132): the position of
    the first participant with the id, or nothing when no one has it.
   */
  function FindParticipant(ps: seq<Participant>, id: int): (r: Option<nat>)
    ensures r.Some? <==> HasParticipant(ps, id)
    ensures r.Some? ==> r.value < |ps| && ps[r.value].id == id
    ensures r.Some? ==> forall j :: 0 <= j < r.value ==> ps[j].id != id
  {
    if |ps| == 0 then None
    else if ps[0].id == id then Some(0)
    else
      match FindParticipant(ps[1..], id)
      case None => None
      case Some(k) => Some(k + 1)
  }

  // ---------------------------------------------------------------------------
  // Joining
  // ---------------------------------------------------------------------------

  /**
    The name recorded for a participant (index.js:134): the Telegram username,
    or else first and last name joined by a space and trimmed. An absent
    username or last name is the empty string, which the source treats as
    absent too.
   */
  function DisplayName(username: string, firstName: string, lastName: string): (name: string)
    ensures username != "" ==> name == username
    ensures username == "" ==> name == Trim(firstName + " " + lastName)
    ensures username == "" ==> name == [] || (!IsWhitespace(name[0]) && !IsWhitespace(name[|name| - 1]))
  {
    if username != "" then username else Trim(firstName + " " + lastName)
  }

  /** Without a username or a last name, the space the template puts after the first name is dropped. */
  lemma DisplayNameFirstNameOnly(f: string)
    requires f != [] && Trim(f) == f
    ensures DisplayName("", f, "") == f
  {
    var s := f + " " + "";
    assert !IsWhitespace(f[0]) && !IsWhitespace(f[|f| - 1]);
    assert TrimStart(s) == s;
    assert s[..|s| - 1] == f;
    assert TrimEnd(f) == f;
  }

  /**
    The participants list after a join attempt by `p` (index.js:132-137):
    unchanged when the id is already there, otherwise `p` appended at the end.
   */
  function Admit(ps: seq<Participant>, p: Participant): (r: seq<Participant>)
    ensures HasParticipant(ps, p.id) ==> r == ps
    ensures !HasParticipant(ps, p.id) ==> |r| == |ps| + 1 && r[..|ps|] == ps && r[|ps|] == p
    ensures HasParticipant(r, p.id)
  {
    if HasParticipant(ps, p.id) then ps else ps + [p]
  }

  /** Admitting never creates a second entry with the same id. */
  lemma AdmitKeepsIdsDistinct(ps: seq<Participant>, p: Participant)
    requires DistinctIds(ps)
    ensures DistinctIds(Admit(ps, p))
  {
    if !HasParticipant(ps, p.id) {
      var r := Admit(ps, p);
      forall i, j | 0 <= i < j < |r| ensures ParticipantId(r[i]) != ParticipantId(r[j]) {
        if j == |ps| {
          assert r[i] == ps[i];
        } else {
          assert ParticipantId(ps[i]) != ParticipantId(ps[j]);
        }
      }
    }
  }

  /** The participants list after a sequence of join attempts, in order. */
  function AdmitAll(ps: seq<Participant>, joins: seq<Participant>): seq<Participant>
    decreases |joins|
  {
    if joins == [] then ps else AdmitAll(Admit(ps, joins[0]), joins[1..])
  }

  /** Starting from no participants, ids stay pairwise distinct under any sequence of joins. */
  lemma {:induction false} AdmitAllKeepsIdsDistinct(ps: seq<Participant>, joins: seq<Participant>)
    requires DistinctIds(ps)
    ensures DistinctIds(AdmitAll(ps, joins))
    decreases |joins|
  {
    if joins != [] {
      AdmitKeepsIdsDistinct(ps, joins[0]);
      AdmitAllKeepsIdsDistinct(Admit(ps, joins[0]), joins[1..]);
    }
  }

  /** Joins by pairwise distinct users are all accepted, in the order they came. */
  lemma {:induction false} AdmitAllDistinctUsers(ps: seq<Participant>, joins: seq<Participant>)
    requires forall i :: 0 <= i < |joins| ==> !HasParticipant(ps, joins[i].id)
    requires DistinctIds(joins)
    ensures AdmitAll(ps, joins) == ps + joins
    decreases |joins|
  {
    if joins != [] {
      var ps' := Admit(ps, joins[0]);
      assert ps' == ps + [joins[0]];
      forall i | 0 <= i < |joins[1..]| ensures !HasParticipant(ps', joins[1..][i].id) {
        var u := joins[i + 1];
        assert joins[1..][i] == u;
        assert !HasParticipant(ps, u.id);
        assert ParticipantId(joins[0]) != ParticipantId(u);
        forall k | 0 <= k < |ps'| ensures ps'[k].id != u.id {
          if k < |ps| {
            assert ps'[k] == ps[k];
          } else {
            assert ps'[k] == joins[0];
          }
        }
      }
      assert DistinctIds(joins[1..]) by {
        forall a, b | 0 <= a < b < |joins[1..]| ensures ParticipantId(joins[1..][a]) != ParticipantId(joins[1..][b]) {
          assert ParticipantId(joins[a + 1]) != ParticipantId(joins[b + 1]);
        }
      }
      AdmitAllDistinctUsers(ps', joins[1..]);
      assert ps' + joins[1..] == ps + joins;
    }
  }

  /** A repeated join changes nothing: admitting the same user twice is admitting once. */
  lemma AdmitTwice(ps: seq<Participant>, p: Participant, q: Participant)
    requires p.id == q.id
    ensures Admit(Admit(ps, p), q) == Admit(ps, p)
  {
  }

  // ---------------------------------------------------------------------------
  // The callback data of the "Participate" button
  // ---------------------------------------------------------------------------

  /** `join_${giveawayId}`, the button's callback data (index.js:103): the prefix, then the id. */
  function JoinToken(giveawayId: string): (data: string)
    ensures StartsWith(data, JOIN_PREFIX) && data[|JOIN_PREFIX|..] == giveawayId
  {
    JOIN_PREFIX + giveawayId
  }

  /**
    The giveaway id a button press names (index.js:125-127): nothing unless the
    data starts with `join_`, otherwise `data.split('_')[1]`.
   */
  function ParseJoinData(data: string): (r: Option<string>)
    ensures r.Some? <==> StartsWith(data, JOIN_PREFIX)
    ensures r.Some? ==> '_' !in r.value && StartsWith(data, JOIN_PREFIX + r.value)
    ensures r.Some? && |JOIN_PREFIX + r.value| < |data| ==> data[|JOIN_PREFIX + r.value|] == '_'
  {
    if StartsWith(data, JOIN_PREFIX) then
      var rest := data[|JOIN_PREFIX|..];
      assert data == "join" + ['_'] + rest;
      SplitAtSeparator("join", '_', rest);
      SplitFirstPiece(rest, '_');
      assert rest[..|Split(rest, '_')[0]|] == Split(rest, '_')[0];
      Some(Split(data, '_')[1])
    else
      None
  }

  /** The id put into the button comes back out of it, since a UUID holds no `_`. */
  lemma JoinTokenRoundTrip(giveawayId: string)
    requires '_' !in giveawayId
    ensures ParseJoinData(JoinToken(giveawayId)) == Some(giveawayId)
  {
    var data := JoinToken(giveawayId);
    assert data == "join" + ['_'] + giveawayId;
    SplitAtSeparator("join", '_', giveawayId);
    SplitNoSeparator(giveawayId, '_');
  }

  // ---------------------------------------------------------------------------
  // Drawing
  // ---------------------------------------------------------------------------

  /** `g.channelId === chatId && g.active` (index.js:170). */
  predicate IsOpenIn(g: Giveaway, chatId: string) {
    g.channelId == chatId && g.active
  }

  /**
    `Object.values(giveaways).reverse().find(...)` (index.js:170): the position,
    in insertion order, of the last giveaway of the chat that is still active.
   */
  function LatestOpen(order: seq<string>, gs: map<string, Giveaway>, chatId: string): (r: Option<nat>)
    requires forall k :: k in order ==> k in gs
    ensures r.Some? ==> r.value < |order| && IsOpenIn(gs[order[r.value]], chatId)
    ensures r.Some? ==> forall j :: r.value < j < |order| ==> !IsOpenIn(gs[order[j]], chatId)
    ensures r.None? ==> forall j :: 0 <= j < |order| ==> !IsOpenIn(gs[order[j]], chatId)
    decreases |order|
  {
    if |order| == 0 then None
    else if IsOpenIn(gs[order[|order| - 1]], chatId) then Some(|order| - 1)
    else LatestOpen(order[..|order| - 1], gs, chatId)
  }

  function Min(a: nat, b: nat): nat {
    if a <= b then a else b
  }

  /**
    `shuffle(latest.participants).slice(0, latest.count)` (index.js:176): the
    first `count` of the shuffled participants, or all of them when fewer.
   */
  ghost function Winners(ps: seq<Participant>, count: nat, pick: nat -> nat): (w: seq<Participant>)
    requires InRange(pick)
    ensures |w| == Min(count, |ps|)
    ensures forall i :: 0 <= i < |w| ==> w[i] == Shuffled(ps, pick)[i]
    ensures multiset(w) <= multiset(ps)
    ensures DistinctIds(ps) ==> DistinctIds(w)
  {
    ShuffledPrefix(ps, pick, Min(count, |ps|));
    Shuffled(ps, pick)[..Min(count, |ps|)]
  }

  /** A prefix of the shuffled list takes no element more often than `ps` has it, and no id twice. */
  lemma ShuffledPrefix(ps: seq<Participant>, pick: nat -> nat, n: nat)
    requires InRange(pick) && n <= |ps|
    ensures |Shuffled(ps, pick)[..n]| == n
    ensures multiset(Shuffled(ps, pick)[..n]) <= multiset(ps)
    ensures DistinctIds(ps) ==> DistinctIds(Shuffled(ps, pick)[..n])
  {
    var s := Shuffled(ps, pick);
    ShuffledIsPermutation(ps, pick);
    assert s == s[..n] + s[n..];
    assert multiset(s) == multiset(s[..n]) + multiset(s[n..]);
    if DistinctIds(ps) {
      ShuffledKeepsDistinct(ps, pick, ParticipantId);
      var w := s[..n];
      forall i, j | 0 <= i < j < n ensures ParticipantId(w[i]) != ParticipantId(w[j]) {
        assert w[i] == s[i] && w[j] == s[j];
      }
    }
  }

  /** Every winner is a participant, and a large enough count makes everyone a winner. */
  lemma WinnersAreParticipants(ps: seq<Participant>, count: nat, pick: nat -> nat)
    requires InRange(pick)
    ensures forall w :: w in Winners(ps, count, pick) ==> w in ps
    ensures count >= |ps| ==> multiset(Winners(ps, count, pick)) == multiset(ps)
  {
    var w := Winners(ps, count, pick);
    forall x | x in w ensures x in ps {
      assert x in multiset(w);
    }
    if count >= |ps| {
      ShuffledIsPermutation(ps, pick);
      assert w == Shuffled(ps, pick);
    }
  }

  /**
    One winner's line: the format with its first `{username}` replaced by `@`
    and the name; a format without the placeholder is every winner's line as is.
   */
  function WinnerLine(format: string, w: Participant): (line: string)
    ensures (forall k: nat :: !OccursAt(format, PLACEHOLDER, k)) ==> line == format
    ensures forall k: nat ::
      OccursAt(format, PLACEHOLDER, k) && (forall j: nat :: j < k ==> !OccursAt(format, PLACEHOLDER, j)) ==>
        line == format[..k] + "@" + w.username + format[k + |PLACEHOLDER|..]
  {
    ReplaceFirst(format, PLACEHOLDER, "@" + w.username)
  }

  function WinnerLines(format: string, winners: seq<Participant>): (lines: seq<string>)
    ensures |lines| == |winners|
    ensures forall i :: 0 <= i < |winners| ==> lines[i] == WinnerLine(format, winners[i])
  {
    seq(|winners|, i requires 0 <= i < |winners| => WinnerLine(format, winners[i]))
  }

  /** Neither the format nor any winner's name holds a line break. */
  predicate NoNewlines(format: string, winners: seq<Participant>) {
    '\n' !in format && forall i :: 0 <= i < |winners| ==> '\n' !in winners[i].username
  }

  lemma LinesWithoutNewline(format: string, winners: seq<Participant>)
    requires NoNewlines(format, winners)
    ensures forall i :: 0 <= i < |winners| ==> '\n' !in WinnerLines(format, winners)[i]
  {
    forall i | 0 <= i < |winners| ensures '\n' !in WinnerLines(format, winners)[i] {
      ReplaceFirstKeepsOut(format, PLACEHOLDER, "@" + winners[i].username, '\n');
    }
  }

  /**
    `winners.map(...).join('\n')` (index.js:177-178; the source writes the
    separator as a line break between the quotes, read here as `'\n'`). No
    winners give the empty text; otherwise, when nothing holds a line break,
    the text splits at line breaks into exactly the winners' lines, in order.
   */
  function WinnersText(format: string, winners: seq<Participant>): (text: string)
    ensures winners == [] ==> text == ""
    ensures winners != [] && NoNewlines(format, winners) ==> Split(text, '\n') == WinnerLines(format, winners)
  {
    var lines := WinnerLines(format, winners);
    // Both branches build the same text; the first only adds the facts its split proof needs.
    if winners != [] && NoNewlines(format, winners) then
      LinesWithoutNewline(format, winners);
      SplitJoinRoundTrip(lines, '\n');
      Join(lines, "\n")
    else
      Join(lines, "\n")
  }

  const WINNERS_HEADER: string := "\U{1F389} Giveaway Winners:"

  /**
    The announcement the draw sends (index.js:179-180): a header line, then one
    line per winner; with no winners, the header and an empty line.
   */
  function WinnersMessage(format: string, winners: seq<Participant>): (message: string)
    ensures NoNewlines(format, winners) ==>
      Split(message, '\n') == [WINNERS_HEADER] + (if winners == [] then [""] else WinnerLines(format, winners))
  {
    var text := WinnersText(format, winners);
    assert '\n' !in WINNERS_HEADER;
    SplitAtSeparator(WINNERS_HEADER, '\n', text);
    WINNERS_HEADER + "\n" + text
  }

  /** With the default format, a winner's line reads `🎉 Winner: @name`. */
  lemma DefaultWinnerLine(w: Participant)
    ensures WinnerLine(DEFAULT_FORMAT, w) == "\U{1F389} Winner: @" + w.username
  {
    var pre := "\U{1F389} Winner: ";
    assert DEFAULT_FORMAT == pre + PLACEHOLDER + "";
    assert '{' !in pre;
    ReplaceFirstAfter(pre, PLACEHOLDER, "", "@" + w.username);
  }

  // ---------------------------------------------------------------------------
  // The store and its handlers
  // ---------------------------------------------------------------------------

  /** The announcement `/run` posts: its text, the button's callback data and the sheet link. */
  datatype Announcement = Announcement(text: string, joinToken: string, sheetUrl: string)

  /** The answers of index.js:129, 132 and 157; `Ignored` is a press that is not a join button. */
  datatype JoinReply = Ignored | NotFoundOrExpired | AlreadyJoined | Joined(entries: nat, announcement: string)

  /** The answer of index.js:171, or the winners and the message of index.js:179-180. */
  datatype DrawReply = NoActiveGiveaway | Drawn(winners: seq<Participant>, message: string)

  const ANNOUNCEMENT_HEAD: string := "\U{1F389} GIVEAWAY STARTED!\nClick to join using the button below!\n\U{1F4CA} Entries: "

  /**
    The announcement text with the live entry count (index.js:97-99, 148-150):
    the fixed head, then the count's digits, with no leading zero.
   */
  function AnnouncementText(entries: nat): (text: string)
    ensures StartsWith(text, ANNOUNCEMENT_HEAD)
    ensures AllDigits(text[|ANNOUNCEMENT_HEAD|..]) && DigitsValue(text[|ANNOUNCEMENT_HEAD|..]) == entries
    ensures |text| > |ANNOUNCEMENT_HEAD| && (text[|ANNOUNCEMENT_HEAD|] == '0' ==> entries == 0 && |text| == |ANNOUNCEMENT_HEAD| + 1)
  {
    NatToStringRoundTrip(entries);
    assert (ANNOUNCEMENT_HEAD + NatToString(entries))[|ANNOUNCEMENT_HEAD|..] == NatToString(entries);
    ANNOUNCEMENT_HEAD + NatToString(entries)
  }

  /**
    The store's invariant: `order` lists every key exactly once, each record
    is filed under its own id, and no giveaway has two participants with the
    same id.
   */
  ghost predicate WellFormed(gs: map<string, Giveaway>, order: seq<string>) {
    && (forall k :: k in order ==> k in gs)
    && (forall k :: k in gs ==> k in order)
    && (forall i, j :: 0 <= i < j < |order| ==> order[i] != order[j])
    && (forall k :: k in gs ==> gs[k].id == k && DistinctIds(gs[k].participants))
  }

  lemma UpdateKeepsWellFormed(gs: map<string, Giveaway>, order: seq<string>, key: string, g: Giveaway)
    requires WellFormed(gs, order) && key in gs && g.id == key && DistinctIds(g.participants)
    ensures WellFormed(gs[key := g], order)
  {
  }

  /** The store and the answer after one handler call. */
  datatype Outcome<R> = Outcome(giveaways: map<string, Giveaway>, reply: R)

  /** The record `/run` stores (index.js:109-119): open, nobody joined, ten winners, the default format. */
  function Opened(id: string, channelId: string, messageId: int, sheetId: string, sheetUrl: string): (g: Giveaway)
    ensures g.id == id && IsOpenIn(g, channelId) && g.participants == []
    ensures g.count == DEFAULT_COUNT && g.format == DEFAULT_FORMAT
  {
    Giveaway(id, channelId, messageId, sheetId, [], sheetUrl, DEFAULT_FORMAT, DEFAULT_COUNT, true)
  }

  /**
    The effect of a button press with callback data `data` by participant `p`
    (index.js:123-158). Only the named giveaway can change, and only by `p`
    being appended; a press that is not a join button, a missing or closed
    giveaway and an id already present change nothing.
   */
  function JoinStep(gs: map<string, Giveaway>, data: string, p: Participant): (r: Outcome<JoinReply>)
    ensures r.giveaways.Keys == gs.Keys
    ensures forall k :: k in gs && ParseJoinData(data) != Some(k) ==> r.giveaways[k] == gs[k]
    ensures r.reply == Ignored <==> !StartsWith(data, JOIN_PREFIX)
    ensures r.reply == NotFoundOrExpired <==>
      ParseJoinData(data).Some? && (ParseJoinData(data).value !in gs || !gs[ParseJoinData(data).value].active)
    ensures r.reply.Joined? <==>
      && ParseJoinData(data).Some? && ParseJoinData(data).value in gs && gs[ParseJoinData(data).value].active
      && !HasParticipant(gs[ParseJoinData(data).value].participants, p.id)
    ensures !r.reply.Joined? ==> r.giveaways == gs
    ensures r.reply.Joined? ==>
      var k := ParseJoinData(data).value;
      && r.giveaways[k] == gs[k].(participants := gs[k].participants + [p])
      && r.reply == Joined(|gs[k].participants| + 1, AnnouncementText(|gs[k].participants| + 1))
  {
    match ParseJoinData(data)
    case None => Outcome(gs, Ignored)
    case Some(k) =>
      if k !in gs || !gs[k].active then Outcome(gs, NotFoundOrExpired)
      else if HasParticipant(gs[k].participants, p.id) then Outcome(gs, AlreadyJoined)
      else
        var ps := Admit(gs[k].participants, p);
        Outcome(gs[k := gs[k].(participants := ps)], Joined(|ps|, AnnouncementText(|ps|)))
  }

  lemma JoinStepKeepsWellFormed(gs: map<string, Giveaway>, order: seq<string>, data: string, p: Participant)
    requires WellFormed(gs, order)
    ensures WellFormed(JoinStep(gs, data, p).giveaways, order)
  {
    var parsed := ParseJoinData(data);
    if parsed.Some? && parsed.value in gs {
      var k := parsed.value;
      AdmitKeepsIdsDistinct(gs[k].participants, p);
      UpdateKeepsWellFormed(gs, order, k, gs[k].(participants := Admit(gs[k].participants, p)));
    }
  }

  /** A press on the button of an open giveaway by a user not yet in it enters the user last. */
  lemma JoinOpenGiveaway(gs: map<string, Giveaway>, id: string, p: Participant)
    requires '_' !in id && id in gs && gs[id].active && !HasParticipant(gs[id].participants, p.id)
    ensures JoinStep(gs, JoinToken(id), p).giveaways == gs[id := gs[id].(participants := gs[id].participants + [p])]
    ensures JoinStep(gs, JoinToken(id), p).reply.Joined?
  {
    JoinTokenRoundTrip(id);
  }

  /** Pressing the button again, as the same user, is answered "already joined" and changes nothing. */
  lemma JoinTwice(gs: map<string, Giveaway>, data: string, p: Participant, q: Participant)
    requires p.id == q.id && JoinStep(gs, data, p).reply.Joined?
    ensures JoinStep(JoinStep(gs, data, p).giveaways, data, q) == Outcome(JoinStep(gs, data, p).giveaways, AlreadyJoined)
  {
    var k := ParseJoinData(data).value;
    var after := JoinStep(gs, data, p).giveaways;
    assert after[k].participants[|gs[k].participants|] == p;
  }

  /**
    The effect of `/draw` in chat `chatId` (index.js:168-184) with the random
    source `pick`: the latest open giveaway of the chat is closed, its
    participants are shuffled in place and the first `count` of them win;
    every other giveaway is left as it was. With no open giveaway in the chat
    nothing changes.
   */
  ghost function DrawStep(gs: map<string, Giveaway>, order: seq<string>, chatId: string, pick: nat -> nat): (r: Outcome<DrawReply>)
    requires forall k :: k in order ==> k in gs
    requires InRange(pick)
    ensures r.giveaways.Keys == gs.Keys
    ensures r.reply == NoActiveGiveaway ==> r.giveaways == gs
  {
    match LatestOpen(order, gs, chatId)
    case None => Outcome(gs, NoActiveGiveaway)
    case Some(i) =>
      var g := gs[order[i]];
      var winners := Winners(g.participants, g.count, pick);
      Outcome(gs[order[i] := g.(active := false, participants := Shuffled(g.participants, pick))],
              Drawn(winners, WinnersMessage(g.format, winners)))
  }

  /**
    What a draw does: with no open giveaway in the chat it answers "no active
    giveaway"; otherwise it closes the latest one, keeps its participants but
    reorders them, takes the first `count` of the new order as winners and
    leaves every other giveaway as it was.
   */
  lemma DrawStepEffect(gs: map<string, Giveaway>, order: seq<string>, chatId: string, pick: nat -> nat)
    requires forall k :: k in order ==> k in gs
    requires InRange(pick)
    ensures var r := DrawStep(gs, order, chatId, pick);
      && (r.reply == NoActiveGiveaway <==> forall j :: 0 <= j < |order| ==> !IsOpenIn(gs[order[j]], chatId))
      && (r.reply.Drawn? ==>
        var i := LatestOpen(order, gs, chatId).value;
        var g, g' := gs[order[i]], r.giveaways[order[i]];
        && IsOpenIn(g, chatId) && !g'.active
        && g' == g.(active := false, participants := g'.participants)
        && multiset(g'.participants) == multiset(g.participants)
        && |g'.participants| == |g.participants|
        && |r.reply.winners| == Min(g.count, |g.participants|)
        && r.reply.winners == g'.participants[..|r.reply.winners|]
        && r.reply.message == WinnersMessage(g.format, r.reply.winners)
        && (forall k :: k in gs && k != order[i] ==> r.giveaways[k] == gs[k]))
  {
    var latest := LatestOpen(order, gs, chatId);
    if latest.Some? {
      var g := gs[order[latest.value]];
      ShuffledIsPermutation(g.participants, pick);
    }
  }

  lemma DrawStepKeepsWellFormed(gs: map<string, Giveaway>, order: seq<string>, chatId: string, pick: nat -> nat)
    requires WellFormed(gs, order) && InRange(pick)
    ensures WellFormed(DrawStep(gs, order, chatId, pick).giveaways, order)
  {
    var latest := LatestOpen(order, gs, chatId);
    if latest.Some? {
      var g := gs[order[latest.value]];
      ShuffledKeepsDistinct(g.participants, pick, ParticipantId);
      UpdateKeepsWellFormed(gs, order, order[latest.value], g.(active := false, participants := Shuffled(g.participants, pick)));
    }
  }

  /**
    Winners are distinct users who joined, and when no more joined than the
    count, every one of them wins.
   */
  lemma DrawnWinnersAreParticipants(gs: map<string, Giveaway>, order: seq<string>, chatId: string, pick: nat -> nat)
    requires WellFormed(gs, order) && InRange(pick)
    requires DrawStep(gs, order, chatId, pick).reply.Drawn?
    ensures var g := gs[order[LatestOpen(order, gs, chatId).value]];
      var winners := DrawStep(gs, order, chatId, pick).reply.winners;
      && DistinctIds(winners)
      && (forall w :: w in winners ==> w in g.participants)
      && (g.count >= |g.participants| ==> multiset(winners) == multiset(g.participants))
  {
    DrawStepEffect(gs, order, chatId, pick);
    var g := gs[order[LatestOpen(order, gs, chatId).value]];
    WinnersAreParticipants(g.participants, g.count, pick);
  }

  /** Once drawn, a giveaway answers every later join with "not found or expired". */
  lemma JoinAfterDrawRejected(gs: map<string, Giveaway>, order: seq<string>, chatId: string, pick: nat -> nat, p: Participant)
    requires WellFormed(gs, order) && InRange(pick)
    requires DrawStep(gs, order, chatId, pick).reply.Drawn?
    requires '_' !in order[LatestOpen(order, gs, chatId).value]
    ensures var after := DrawStep(gs, order, chatId, pick).giveaways;
      JoinStep(after, JoinToken(order[LatestOpen(order, gs, chatId).value]), p) == Outcome(after, NotFoundOrExpired)
  {
    DrawStepEffect(gs, order, chatId, pick);
    JoinTokenRoundTrip(order[LatestOpen(order, gs, chatId).value]);
  }

  /**
    A second `/draw` in the same chat reaches further back: it finds an open
    giveaway inserted before the one just drawn, or none.
   */
  lemma DrawAgainReachesFurtherBack(gs: map<string, Giveaway>, order: seq<string>, chatId: string, pick: nat -> nat)
    requires WellFormed(gs, order) && InRange(pick)
    requires DrawStep(gs, order, chatId, pick).reply.Drawn?
    ensures var after := DrawStep(gs, order, chatId, pick).giveaways;
      var again := LatestOpen(order, after, chatId);
      again.Some? ==> again.value < LatestOpen(order, gs, chatId).value
  {
    DrawStepEffect(gs, order, chatId, pick);
    var i := LatestOpen(order, gs, chatId).value;
    var after := DrawStep(gs, order, chatId, pick).giveaways;
    forall j | i <= j < |order| ensures !IsOpenIn(after[order[j]], chatId) {
      if j > i {
        assert order[j] != order[i];
        assert after[order[j]] == gs[order[j]];
      }
    }
  }

  /** `shuffle(latest.participants)` (index.js:176): the participants copied into an array and shuffled there. */
  method ShuffledCopy(ps: seq<Participant>, pick: nat -> nat) returns (shuffled: seq<Participant>)
    requires InRange(pick)
    ensures shuffled == Shuffled(ps, pick)
  {
    var a := new Participant[|ps|](i requires 0 <= i < |ps| => ps[i]);
    assert a[..] == ps;
    Shuffle(a, pick);
    shuffled := a[..];
  }

  /** Filing a new record under a fresh key appends the key to the insertion order; an old key keeps its place. */
  lemma InsertKeepsWellFormed(gs: map<string, Giveaway>, order: seq<string>, key: string, g: Giveaway)
    requires WellFormed(gs, order) && g.id == key && DistinctIds(g.participants)
    ensures key in gs ==> WellFormed(gs[key := g], order)
    ensures key !in gs ==> WellFormed(gs[key := g], order + [key])
  {
    if key !in gs {
      var order' := order + [key];
      forall i, j | 0 <= i < j < |order'| ensures order'[i] != order'[j] {
        if j == |order| {
          assert order'[i] == order[i];
        }
      }
    }
  }

  class Store {
    /** `giveaways`, keyed by giveaway id. */
    var giveaways: map<string, Giveaway>
    /** The keys in insertion order, the order in which `Object.values(giveaways)` lists them. */
    var order: seq<string>

    ghost predicate Valid()
      reads this
    {
      WellFormed(giveaways, order)
    }

    /** The empty store of a first start, before any giveaways file exists. */
    constructor ()
      ensures Valid() && giveaways == map[] && order == []
    {
      giveaways := map[];
      order := [];
    }

    /**
      A channel post (index.js:88-121). Only text starting with `/run` counts;
      it stores a fresh giveaway, open, with no participants, ten winners and
      the default format, under the new id. No check is made that the channel
      has no open giveaway already.
     */
    method Run(text: string, channelId: string, freshId: string, messageId: int, sheetId: string, sheetUrl: string)
      returns (post: Option<Announcement>)
      requires Valid()
      modifies this
      ensures Valid()
      ensures !StartsWith(text, RUN_COMMAND) ==> post == None && giveaways == old(giveaways) && order == old(order)
      ensures StartsWith(text, RUN_COMMAND) ==>
        && post == Some(Announcement(AnnouncementText(0), JoinToken(freshId), sheetUrl))
        && giveaways == old(giveaways)[freshId := Opened(freshId, channelId, messageId, sheetId, sheetUrl)]
        && order == if freshId in old(giveaways) then old(order) else old(order) + [freshId]
    {
      if !StartsWith(text, RUN_COMMAND) {
        return None;
      }
      var g := Opened(freshId, channelId, messageId, sheetId, sheetUrl);
      InsertKeepsWellFormed(giveaways, order, freshId, g);
      if freshId !in giveaways {
        order := order + [freshId];
      }
      giveaways := giveaways[freshId := g];
      post := Some(Announcement(AnnouncementText(0), JoinToken(freshId), sheetUrl));
    }

    /**
      A button press (index.js:123-158) by user `userId` at time `now`: the
      store changes as `JoinStep` says, for the participant made of the
      user's display name and the formatted time.
     */
    method Join(data: string, userId: int, username: string, firstName: string, lastName: string, now: UtcTime)
      returns (reply: JoinReply)
      requires Valid()
      modifies this
      ensures Valid() && order == old(order)
      ensures Outcome(giveaways, reply)
        == JoinStep(old(giveaways), data, Participant(userId, DisplayName(username, firstName, lastName), FormatUtcDate(now)))
    {
      var parsed := ParseJoinData(data);
      if parsed.None? {
        return Ignored;
      }
      var id := parsed.value;
      if id !in giveaways || !giveaways[id].active {
        return NotFoundOrExpired;
      }
      var entry := giveaways[id];
      if FindParticipant(entry.participants, userId).Some? {
        return AlreadyJoined;
      }
      var p := Participant(userId, DisplayName(username, firstName, lastName), FormatUtcDate(now));
      var participants := entry.participants + [p];
      JoinStepKeepsWellFormed(giveaways, order, data, p);
      giveaways := giveaways[id := entry.(participants := participants)];
      reply := Joined(|participants|, AnnouncementText(|participants|));
    }

    /**
      `/draw` in chat `chatId` (index.js:168-184), with the random source
      `pick`: the store changes as `DrawStep` says, the participants being
      shuffled in an array in place.
     */
    method Draw(chatId: string, pick: nat -> nat) returns (reply: DrawReply)
      requires Valid() && InRange(pick)
      modifies this
      ensures Valid() && order == old(order)
      ensures Outcome(giveaways, reply) == DrawStep(old(giveaways), old(order), chatId, pick)
    {
      DrawStepKeepsWellFormed(giveaways, order, chatId, pick);
      var latest := LatestOpen(order, giveaways, chatId);
      if latest.None? {
        return NoActiveGiveaway;
      }
      var key := order[latest.value];
      var g := giveaways[key];
      var ps := g.participants;
      var shuffled := ShuffledCopy(ps, pick);
      var winners := shuffled[..Min(g.count, |shuffled|)];
      assert winners == Winners(ps, g.count, pick);
      giveaways := giveaways[key := g.(active := false, participants := shuffled)];
      reply := Drawn(winners, WinnersMessage(g.format, winners));
    }
  }
}
