/** The backend's player bookkeeping over an in-memory table: getting or
    creating a player by name, saving a finished round and updating that
    player's statistics, and looking a player up. A lookup by name follows
    the `single` rule of the database client: it yields a row only when
    exactly one row has that name. */
module Server {
  import opened Optional

  datatype Player = Player(name: string, gamesPlayed: int, gamesWon: int, bestScore: int)

  /** The body of a save request, as the round reports it. */
  datatype GameSession = GameSession(
    playerName: string, score: int, timeElapsed: int, hintsUsed: int,
    imageName: string, category: string, difficulty: string, completed: bool)

  /** A row inserted with only a name: every counter starts at zero. */
  function NewPlayer(name: string): Player {
    Player(name, 0, 0, 0)
  }

  // ---------------------------------------------------------------- lookups

  predicate HasName(players: seq<Player>, name: string) {
    exists i :: 0 <= i < |players| && players[i].name == name
  }

  /** The rows with this name, in table order. */
  function Named(players: seq<Player>, name: string): (m: seq<Player>)
    ensures forall p :: p in m <==> p in players && p.name == name
    ensures |m| <= |players|
    ensures m == [] <==> !HasName(players, name)
  {
    if players == [] then []
    else
      var rest := Named(players[1..], name);
      assert forall p :: p in players <==> p == players[0] || p in players[1..];
      if players[0].name == name then [players[0]] + rest
      else
        assert HasName(players, name) ==> HasName(players[1..], name) by {
          if HasName(players, name) {
            var i :| 0 <= i < |players| && players[i].name == name;
            assert players[1..][i - 1] == players[i];
          }
        }
        assert HasName(players[1..], name) ==> HasName(players, name) by {
          if HasName(players[1..], name) {
            var i :| 0 <= i < |players[1..]| && players[1..][i].name == name;
            assert players[i + 1] == players[1..][i];
          }
        }
        rest
  }

  /** `select('*').eq('name', name).single()`: the row when exactly one has
      the name, otherwise nothing. */
  function Single(players: seq<Player>, name: string): (r: Option<Player>)
    ensures r.Some? <==> |Named(players, name)| == 1
    ensures r.Some? ==> r.value in players && r.value.name == name
  {
    var m := Named(players, name);
    if |m| == 1 then assert m[0] in m; Some(m[0]) else None
  }

  /** No two rows share a name. */
  predicate UniqueNames(players: seq<Player>) {
    forall i, j :: 0 <= i < j < |players| ==> players[i].name != players[j].name
  }

  /** With names unique, a lookup finds a row exactly when the name is
      present, and that row is the one holding it. */
  lemma {:induction false} SingleOfUnique(players: seq<Player>, name: string)
    requires UniqueNames(players)
    ensures Single(players, name).Some? <==> HasName(players, name)
    ensures forall i :: 0 <= i < |players| && players[i].name == name ==> Single(players, name) == Some(players[i])
  {
    if players != [] {
      var tail := players[1..];
      assert UniqueNames(tail) by {
        forall i, j | 0 <= i < j < |tail| ensures tail[i].name != tail[j].name {
          assert tail[i] == players[i + 1] && tail[j] == players[j + 1];
        }
      }
      SingleOfUnique(tail, name);
      assert HasName(players, name) <==> players[0].name == name || HasName(tail, name) by {
        if HasName(tail, name) {
          var i :| 0 <= i < |tail| && tail[i].name == name;
          assert players[i + 1].name == name;
        }
        if HasName(players, name) && players[0].name != name {
          var i :| 0 <= i < |players| && players[i].name == name;
          assert tail[i - 1].name == name;
        }
      }
      if players[0].name == name {
        assert !HasName(tail, name);
        assert Named(tail, name) == [];
        forall i | 0 <= i < |players| && players[i].name == name ensures Single(players, name) == Some(players[i]) {
          assert i == 0;
        }
      } else {
        forall i | 0 <= i < |players| && players[i].name == name ensures Single(players, name) == Some(players[i]) {
          assert tail[i - 1] == players[i];
        }
      }
    }
  }

  /** With two rows of the same name the lookup finds nothing. */
  lemma DuplicateNameNotFound(p: Player, q: Player)
    requires p.name == q.name
    ensures Single([p, q], p.name) == None
  {
    assert [p, q][1..] == [q];
  }

  // ---------------------------------------------------------------- get or create

  /** `POST /api/players`: an existing row is returned and the table is left
      alone; otherwise one row with the name and zero counters is appended
      and returned. */
  function GetOrCreate(players: seq<Player>, name: string): (o: (Player, seq<Player>))
    ensures o.0.name == name && o.0 in o.1
    ensures players <= o.1 && |o.1| <= |players| + 1
    ensures |o.1| == |players| <==> Single(players, name).Some?
    ensures |o.1| > |players| ==> o.0 == NewPlayer(name) && o.1[|players|] == o.0
  {
    match Single(players, name)
    case Some(p) => (p, players)
    case None => (NewPlayer(name), players + [NewPlayer(name)])
  }

  /** A table with unique names keeps them, and the returned player is then
      the one a lookup finds. */
  lemma GetOrCreateKeepsUnique(players: seq<Player>, name: string)
    requires UniqueNames(players)
    ensures UniqueNames(GetOrCreate(players, name).1)
    ensures Single(GetOrCreate(players, name).1, name) == Some(GetOrCreate(players, name).0)
  {
    SingleOfUnique(players, name);
    var (p, after) := GetOrCreate(players, name);
    if |after| > |players| {
      assert !HasName(players, name);
      assert UniqueNames(after) by {
        forall i, j | 0 <= i < j < |after| ensures after[i].name != after[j].name {
          if j == |players| {
            assert after[i] == players[i];
          }
        }
      }
      SingleOfUnique(after, name);
      assert after[|players|].name == name;
    } else {
      var i :| 0 <= i < |players| && players[i].name == name;
    }
  }

  /** Asking twice for the same name creates at most one row. */
  lemma GetOrCreateIdempotent(players: seq<Player>, name: string)
    requires UniqueNames(players)
    ensures var (p, after) := GetOrCreate(players, name);
            GetOrCreate(after, name) == (p, after)
  {
    GetOrCreateKeepsUnique(players, name);
  }

  // ---------------------------------------------------------------- saving a round

  /** The statistics after one saved round: one more game, one more win when
      the round was completed, and the best score raised only by a completed
      round that beat it. */
  function UpdatedStats(p: Player, completed: bool, score: int): (q: Player)
    ensures q.name == p.name
    ensures q.gamesPlayed == p.gamesPlayed + 1
    ensures completed ==> q.gamesWon == p.gamesWon + 1
    ensures !completed ==> q.gamesWon == p.gamesWon
    ensures q.bestScore >= p.bestScore
    ensures completed ==> q.bestScore >= score
    ensures q.bestScore == p.bestScore || (completed && q.bestScore == score)
  {
    Player(p.name, p.gamesPlayed + 1,
           if completed then p.gamesWon + 1 else p.gamesWon,
           if completed && score > p.bestScore then score else p.bestScore)
  }

  /** `update(updates).eq('name', name)`: every row with the name gets the
      new counters. */
  function UpdateWhere(players: seq<Player>, name: string, updated: Player): (after: seq<Player>)
    ensures |after| == |players|
    ensures forall i :: 0 <= i < |players| && players[i].name != name ==> after[i] == players[i]
    ensures forall i :: 0 <= i < |players| && players[i].name == name ==> after[i] == updated
  {
    seq(|players|, i requires 0 <= i < |players| => if players[i].name == name then updated else players[i])
  }

  /** `POST /api/game-sessions`: the session is stored whatever happens next;
      then, if a lookup finds the player, that player's row gets the updated
      statistics. A name with no row, or with several, leaves the table as it
      was. */
  function SaveSession(players: seq<Player>, sessions: seq<GameSession>, s: GameSession)
    : (o: (seq<Player>, seq<GameSession>))
    ensures o.1 == sessions + [s]
    ensures |o.0| == |players|
    ensures forall i :: 0 <= i < |players| ==> o.0[i].name == players[i].name
    ensures forall i :: 0 <= i < |players| && players[i].name != s.playerName ==> o.0[i] == players[i]
    ensures Single(players, s.playerName).None? ==> o.0 == players
  {
    match Single(players, s.playerName)
    case None => (players, sessions + [s])
    case Some(p) =>
      var q := UpdatedStats(p, s.completed, s.score);
      (UpdateWhere(players, s.playerName, q), sessions + [s])
  }

  /** In a table with unique names, saving a round updates exactly the
      player's own row, by the statistics rule, and keeps names unique. */
  lemma SaveSessionUpdatesPlayer(players: seq<Player>, sessions: seq<GameSession>, s: GameSession, i: nat)
    requires UniqueNames(players)
    requires i < |players| && players[i].name == s.playerName
    ensures SaveSession(players, sessions, s).0 == players[i := UpdatedStats(players[i], s.completed, s.score)]
    ensures UniqueNames(SaveSession(players, sessions, s).0)
  {
    SingleOfUnique(players, s.playerName);
    var after := SaveSession(players, sessions, s).0;
    var expected := players[i := UpdatedStats(players[i], s.completed, s.score)];
    forall k | 0 <= k < |players| ensures after[k] == expected[k] {
      if k != i {
        assert players[k].name != s.playerName;
      }
    }
  }

  /** Saving never lowers anyone's best score. */
  lemma SaveSessionKeepsBest(players: seq<Player>, sessions: seq<GameSession>, s: GameSession)
    ensures forall i :: 0 <= i < |players|
              ==> SaveSession(players, sessions, s).0[i].bestScore >= players[i].bestScore
  {
  }

  // ---------------------------------------------------------------- a player's history

  /** The statistics of a player after a series of rounds saved in order. */
  function Replay(p: Player, rounds: seq<GameSession>): Player
    decreases |rounds|
  {
    if rounds == [] then p
    else Replay(UpdatedStats(p, rounds[0].completed, rounds[0].score), rounds[1..])
  }

  function Wins(rounds: seq<GameSession>): (n: nat)
    ensures n <= |rounds|
  {
    if rounds == [] then 0 else (if rounds[0].completed then 1 else 0) + Wins(rounds[1..])
  }

  /** After any series of rounds: games played grows by the number of rounds,
      games won by the completed ones, and the best score is the old best or
      the score of a completed round, and no lower than any of them. */
  lemma {:induction false} ReplaySummary(p: Player, rounds: seq<GameSession>)
    ensures Replay(p, rounds).name == p.name
    ensures Replay(p, rounds).gamesPlayed == p.gamesPlayed + |rounds|
    ensures Replay(p, rounds).gamesWon == p.gamesWon + Wins(rounds)
    ensures Replay(p, rounds).bestScore >= p.bestScore
    ensures forall k :: 0 <= k < |rounds| && rounds[k].completed ==> Replay(p, rounds).bestScore >= rounds[k].score
    ensures Replay(p, rounds).bestScore == p.bestScore
         || exists k :: 0 <= k < |rounds| && rounds[k].completed && Replay(p, rounds).bestScore == rounds[k].score
    decreases |rounds|
  {
    if rounds != [] {
      var q := UpdatedStats(p, rounds[0].completed, rounds[0].score);
      var tail := rounds[1..];
      ReplaySummary(q, tail);
      var r := Replay(q, tail);
      forall k | 0 <= k < |rounds| && rounds[k].completed ensures r.bestScore >= rounds[k].score {
        if k > 0 {
          assert tail[k - 1] == rounds[k];
        }
      }
      if r.bestScore != q.bestScore {
        var k :| 0 <= k < |tail| && tail[k].completed && r.bestScore == tail[k].score;
        assert rounds[k + 1] == tail[k];
      } else if q.bestScore != p.bestScore {
        assert rounds[0].completed && r.bestScore == rounds[0].score;
      }
    }
  }

  // ---------------------------------------------------------------- the store

  /** The players and sessions tables, updated in place by the two POST
      routes. */
  class PlayerStore {
    var players: seq<Player>
    var sessions: seq<GameSession>

    ghost predicate Valid()
      reads this
    {
      UniqueNames(players)
    }

    constructor ()
      ensures Valid() && players == [] && sessions == []
    {
      players := [];
      sessions := [];
    }

    /** `POST /api/players`. */
    method GetOrCreatePlayer(name: string) returns (p: Player)
      modifies this
      ensures (p, players) == GetOrCreate(old(players), name)
      ensures sessions == old(sessions)
      ensures old(Valid()) ==> Valid() && Single(players, name) == Some(p)
    {
      if Valid() {
        GetOrCreateKeepsUnique(players, name);
      }
      var existing := Single(players, name);
      if existing.Some? {
        p := existing.value;
      } else {
        p := NewPlayer(name);
        players := players + [p];
      }
    }

    /** `POST /api/game-sessions`: answers with the stored session. */
    method SaveGameSession(s: GameSession) returns (saved: GameSession)
      modifies this
      ensures saved == s
      ensures (players, sessions) == SaveSession(old(players), old(sessions), s)
      ensures old(Valid()) ==> Valid()
    {
      sessions := sessions + [s];
      saved := s;
      var found := Single(players, s.playerName);
      if found.Some? {
        if old(Valid()) {
          var i :| 0 <= i < |players| && players[i] == found.value;
          SaveSessionUpdatesPlayer(players, old(sessions), s, i);
        }
        players := UpdateWhere(players, s.playerName, UpdatedStats(found.value, s.completed, s.score));
      }
    }

    /** `GET /api/players/:name`: the row, or nothing (answered as not found). */
    method GetPlayer(name: string) returns (r: Option<Player>)
      ensures r.Some? ==> r.value in players && r.value.name == name
      ensures Valid() ==> (r.Some? <==> HasName(players, name))
    {
      if Valid() {
        SingleOfUnique(players, name);
      }
      r := Single(players, name);
    }
  }
}
