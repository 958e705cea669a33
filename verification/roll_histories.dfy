/** `RollHistory` (src/rollHistory.ts): an append-only log of finished rolls,
    each tagged with its user and the time it was added, and a display
    window over its last ten entries. The per-user highlight colours live
    in a map shared by all histories; it is carried here as part of the
    history value. Times and colours come from the clock and the random
    source, so they are parameters. */
module RollHistories {
  import opened Outcomes
  import opened DiceSets

  /** The most entries the display shows. */
  const Window: nat := 10

  /** The parts of a user an entry reads. */
  datatype User = User(id: nat, name: string)

  /** A highlight colour; its three channels are drawn at random. */
  datatype Colour = Colour(red: real, green: real, blue: real)

  /** `HistoryEntry`: who rolled, what, and when it was recorded. */
  datatype Entry = Entry(user: User, roll: Dice, timestamp: int)

  datatype History = History(log: seq<Entry>, highlights: map<nat, Colour>)

  const Empty := History([], map[])

  /** `new HistoryEntry(user, roll)`: stores the user and the roll, and gives
      the user a highlight unless they already have one. */
  function NewEntry(h: History, user: User, roll: Dice, now: int, colour: Colour): (r: (Entry, map<nat, Colour>))
    ensures r.0.user == user && r.0.roll == roll
    ensures user.id in r.1 && r.1.Keys == h.highlights.Keys + {user.id}
    ensures user.id in h.highlights ==> r.1 == h.highlights
    ensures forall id :: id in h.highlights ==> r.1[id] == h.highlights[id]
  {
    var highlights := if user.id in h.highlights then h.highlights else h.highlights[user.id := colour];
    (Entry(user, roll, now), highlights)
  }

  /** `addRollToHistory(user, roll)`: refuses a roll without results, and
      otherwise appends one entry for it. */
  function AddRollToHistory(h: History, user: User, roll: Dice, now: int, colour: Colour): (r: Result<History>)
    ensures r.Err? <==> !roll.HasRollResults()
    ensures r.Err? ==> r.failure == Unrolled
    ensures r.Ok? ==> |r.value.log| == |h.log| + 1 && r.value.log[..|h.log|] == h.log
    ensures r.Ok? ==> var e := r.value.log[|h.log|];
      e.user == user && e.roll == roll && e.timestamp == now
    ensures r.Ok? ==> forall id :: id in h.highlights ==> id in r.value.highlights && r.value.highlights[id] == h.highlights[id]
  {
    if !roll.HasRollResults() then Err(Unrolled)
    else
      var (e, highlights) := NewEntry(h, user, roll, now, colour);
      assert (h.log + [e])[..|h.log|] == h.log;
      Ok(History(h.log + [e], highlights))
  }

  /** `log.slice(Math.max(0, log.length - 10))`: the entries shown. */
  function DisplayLines(log: seq<Entry>): (r: seq<Entry>)
    ensures |r| == if |log| < Window then |log| else Window
    ensures r == log[|log| - |r|..]
  {
    var from := if |log| - Window < 0 then 0 else |log| - Window;
    log[from..]
  }

  /** Appending an entry shows it last and, once the window is full, pushes
      the oldest shown entry out; the log itself keeps everything. */
  lemma DisplaySlides(log: seq<Entry>, e: Entry)
    ensures DisplayLines(log + [e]) ==
      (if |log| < Window then DisplayLines(log) else DisplayLines(log)[1..]) + [e]
  {
    var shown := DisplayLines(log + [e]);
    if |log| < Window {
      assert shown == log + [e];
    } else {
      assert shown == log[|log| - Window + 1..] + [e];
    }
  }

  /** Twelve entries in: the window shows entries 3 to 12, in order. */
  lemma DisplayAfterTwelve(h: History)
    requires |h.log| == 12
    ensures DisplayLines(h.log) == h.log[2..]
    ensures DisplayLines(h.log)[0] == h.log[2] && DisplayLines(h.log)[9] == h.log[11]
  {
  }

  /** Recording a roll keeps a user's first highlight for good. */
  lemma HighlightKept(h: History, user: User, roll: Dice, now: int, colour: Colour)
    requires user.id in h.highlights && roll.HasRollResults()
    ensures AddRollToHistory(h, user, roll, now, colour).value.highlights == h.highlights
  {
  }
}
