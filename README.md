# System design exercises in Dafny

This project models the algorithmic core of the Java repository
"System---Design":

- a gossip-based failure detector;
- a Snowflake id generator;
- a Bloom filter;
- an LRU cache over a doubly linked list;
- a Connect-4 board;
- tic-tac-toe: the board, the diagonal winning strategy, the game and its
  in-progress and winner states;
- the snake-and-ladder game factory, game sessions and the session manager.

Every Java class whose fields change becomes a Dafny `class` with those
fields and methods with `modifies` clauses. Each method is proved against a
specification: a function of the old state, or an outright property. The
properties the code promises are lemmas about those specification functions.
One file per component:

| file | module | Java source |
|---|---|---|
| `wrappers.dfy` | `Wrappers` | `Option` (Java null) and `Result` (a thrown exception) |
| `gossip.dfy` | `Gossip` | `GossipFailureDetector.java` |
| `snowflake.dfy` | `Snowflake` | `SnowflakeIdGenerator.java` |
| `bloom.dfy` | `Bloom` | `BloomFilter.java` |
| `linked_list.dfy` | `LinkedList` | `DoubleLinkedList.java`, `Node.java` |
| `lru_cache.dfy` | `LruCache` | `LRUCache.java` |
| `connect4.dfy` | `Connect4` | `GameBoard.java` |
| `tictactoe_board.dfy` | `TicTacToeBoard` | `Board.java` |
| `tictactoe_strategy.dfy` | `TicTacToeStrategy` | `DiagonalWinningStrategy.java` |
| `tictactoe_game.dfy` | `TicTacToeGame` | `Game.java`, `InProgressState.java`, `WinnerState.java` |
| `snake_model.dfy` | `SnakeModel` | `Ladder.java`, `BoardEntity.java` |
| `snake_session.dfy` | `SnakeSession` | `GameSession.java` |
| `snake_factory.dfy` | `SnakeFactory` | `GameFactory.java` |
| `snake_manager.dfy` | `SnakeManager` | `GameSessionManager.java` |

The environment becomes parameters:

- wall-clock readings, as `now` or, for the Snowflake generator, the
  sequence of readings one call makes;
- the random peer index of a gossip round;
- new session ids (random UUIDs in Java);
- the outcome of playing a snake-and-ladder game.

Note these behaviours of the Java failure detector, which the model keeps:

- A gossiped entry for an id the receiver does not know is stored exactly
  as it arrived, with the sender's `lastSeen`. Only a fresher entry for a
  known id is stamped with the receiver's clock (`Gossip.MergeInsertsUnknown`).
- A node's own entry is merged like any other, so a fresher copy of it in a
  snapshot would replace it. `Gossip.MergeKeepsOwnEntry` gives the condition
  under which it is untouched.
- The staleness sweep visits the node's own entry too.
- A gossip round may draw the node itself, and is then a no-op: the random
  index ranges over the whole cluster list, the node included.

## Model

| member | source | states |
|---|---|---|
| Gossip.MergeKeepsIds | ad-hoc/src/main/java/org/learning/GossipFailureDetector.java:43-52 | receiveGossip keeps every known id and adds exactly the incoming ones |
| Gossip.MergeInsertsUnknown | ad-hoc/src/main/java/org/learning/GossipFailureDetector.java:44-45 | an id the receiver does not know is stored exactly as it arrived |
| Gossip.MergeAcceptsOnlyFresher | ad-hoc/src/main/java/org/learning/GossipFailureDetector.java:45-50 | a known id takes (incoming heartbeat, incoming status, receiver's now) when the incoming heartbeat is strictly higher, and is left unchanged otherwise |
| Gossip.MergeHeartbeatIsMax | ad-hoc/src/main/java/org/learning/GossipFailureDetector.java:43-52 | after a merge an id's heartbeat is the larger of the local and incoming ones; a stored heartbeat never decreases |
| Gossip.MergeRevives | ad-hoc/src/main/java/org/learning/GossipFailureDetector.java:46-47 | a fresher ALIVE entry brings a SUSPECT or DEAD entry back to ALIVE, stamped now |
| Gossip.MergeIdempotent | ad-hoc/src/main/java/org/learning/GossipFailureDetector.java:43-52 | receiving the same snapshot twice gives the table that receiving it once gives |
| Gossip.MergeHeartbeatsCommute | ad-hoc/src/main/java/org/learning/GossipFailureDetector.java:43-52 | two snapshots received in either order leave the same ids with the same heartbeats |
| Gossip.MergeKeepsOwnEntry | ad-hoc/src/main/java/org/learning/GossipFailureDetector.java:43-52 | the node's own entry survives a snapshot whose copy of it is no fresher |
| Gossip.MergedStep | ad-hoc/src/main/java/org/learning/GossipFailureDetector.java:44-51 | merging one more snapshot entry is one Map.merge call on the table merged so far |
| Gossip.SweepStatusByElapsed | ad-hoc/src/main/java/org/learning/GossipFailureDetector.java:58-63 | the status after the sweep, by elapsed time: ALIVE older than 6000 ms becomes DEAD in one pass, older than 3000 ms SUSPECT; SUSPECT older than 6000 ms becomes DEAD; DEAD stays |
| Gossip.SweepOnlyDowngrades | ad-hoc/src/main/java/org/learning/GossipFailureDetector.java:54-65 | the sweep keeps ids, heartbeats and lastSeen, never moves a status toward ALIVE and never touches a DEAD entry |
| Gossip.SweepIdempotent | ad-hoc/src/main/java/org/learning/GossipFailureDetector.java:54-65 | sweeping twice at one instant is sweeping once |
| Gossip.Node.constructor | ad-hoc/src/main/java/org/learning/GossipFailureDetector.java:23-34 | a new node has its id, an empty table and heartbeat 0 |
| Gossip.Node.HeartbeatTick | ad-hoc/src/main/java/org/learning/GossipFailureDetector.java:67-70 | the heartbeat goes up by one and the own entry becomes (heartbeat, ALIVE, now); no other entry changes |
| Gossip.Node.ReceiveGossip | ad-hoc/src/main/java/org/learning/GossipFailureDetector.java:43-52 | the new table is the old one with every incoming entry merged |
| Gossip.Node.DetectFailures | ad-hoc/src/main/java/org/learning/GossipFailureDetector.java:54-65 | the new table is the old one with both staleness checks applied to every entry |
| Gossip.Node.SendGossip | ad-hoc/src/main/java/org/learning/GossipFailureDetector.java:36-41 | with an empty cluster or the node itself drawn, nothing changes; otherwise only the drawn peer changes, and its table is its old table merged with this node's |
| Snowflake.DecomposeCompose | ad-hoc/src/main/java/org/learning/SnowflakeIdGenerator.java:47-49 | the timestamp, machine id and sequence are recovered from the id: the three fields do not overlap |
| Snowflake.ShiftOrIsSum | ad-hoc/src/main/java/org/learning/SnowflakeIdGenerator.java:47-49 | on 64-bit words the shifted fields share no bit, so or-ing them adds them |
| Snowflake.ComposeIncreasing | ad-hoc/src/main/java/org/learning/SnowflakeIdGenerator.java:47-49 | for one machine, ids are ordered like (timestamp, sequence) pairs |
| Snowflake.FirstAfter | ad-hoc/src/main/java/org/learning/SnowflakeIdGenerator.java:52-57 | the first clock reading later than the bound, and every reading before it is not later |
| Snowflake.NextIdPromises | ad-hoc/src/main/java/org/learning/SnowflakeIdGenerator.java:26-50 | nextId fails exactly when the clock went backwards. Otherwise: in the same millisecond the sequence counts up modulo 4096; a wrap to 0 moves to a later millisecond; a new millisecond restarts the sequence at 0; the id encodes the new state and exceeds every id of the old state |
| Snowflake.SuccessiveIdsIncrease | ad-hoc/src/main/java/org/learning/SnowflakeIdGenerator.java:26-50 | two successive calls return strictly increasing, hence distinct, ids |
| Snowflake.SnowflakeIdGenerator.constructor | ad-hoc/src/main/java/org/learning/SnowflakeIdGenerator.java:16-24 | a generator for an in-range machine id starts with lastTimestamp -1 and sequence 0 |
| Snowflake.SnowflakeIdGenerator.Create | ad-hoc/src/main/java/org/learning/SnowflakeIdGenerator.java:19-24 | a machine id outside [0, 1023] is refused; any other yields a fresh generator in the initial state |
| Snowflake.SnowflakeIdGenerator.NextId | ad-hoc/src/main/java/org/learning/SnowflakeIdGenerator.java:26-50 | the answer and the new (lastTimestamp, sequence) are those of one step of the generator's specification; a refused call changes nothing |
| Snowflake.SnowflakeIdGenerator.WaitNextMillis | ad-hoc/src/main/java/org/learning/SnowflakeIdGenerator.java:52-57 | returns the first reading later than lastTimestamp |
| Bloom.BitOf | ad-hoc/src/main/java/org/learning/BloomFilter.java:20 | Math.abs(hash % size) is a bit index in [0, size) for every 32-bit hash |
| Bloom.AddSetsExactlyIndices | ad-hoc/src/main/java/org/learning/BloomFilter.java:17-22 | after add(key) a bit is set exactly when it was set before or some hash function of key selects it |
| Bloom.AddThenContains | ad-hoc/src/main/java/org/learning/BloomFilter.java:17-33 | mightContain(key) is true right after add(key) |
| Bloom.AddAllKeepsBits | ad-hoc/src/main/java/org/learning/BloomFilter.java:17-22 | a set bit stays set whatever is added later |
| Bloom.NoFalseNegatives | ad-hoc/src/main/java/org/learning/BloomFilter.java:17-33 | mightContain(key) stays true after add(key) and any later adds |
| Bloom.AddIdempotent | ad-hoc/src/main/java/org/learning/BloomFilter.java:17-22 | adding a key twice leaves the bits that adding it once leaves |
| Bloom.AddBitsStep | ad-hoc/src/main/java/org/learning/BloomFilter.java:18-20 | one more pass of the add loop sets exactly the bit the next hash function selects, on top of those already set |
| Bloom.NoHashFunctions | ad-hoc/src/main/java/org/learning/BloomFilter.java:18 | with zero or a negative number of hash functions the loops select no bit at all |
| Bloom.BloomFilter.constructor | ad-hoc/src/main/java/org/learning/BloomFilter.java:10-14 | a new filter has the given size and hash count and every bit clear |
| Bloom.BloomFilter.Add | ad-hoc/src/main/java/org/learning/BloomFilter.java:17-22 | the new bits are the old bits with the key's selected bits set |
| Bloom.BloomFilter.MightContain | ad-hoc/src/main/java/org/learning/BloomFilter.java:25-33 | true exactly when every bit the key selects is set |
| LinkedList.Node.constructor | LRUCache/src/main/java/org/example/Node.java:7-10 | a new node holds the key and value and is unlinked |
| LinkedList.Node.Sentinel | LRUCache/src/main/java/org/example/DoubleLinkedList.java:7-8 | a sentinel node is unlinked |
| LinkedList.RemoveAtKeepsDistinct | LRUCache/src/main/java/org/example/DoubleLinkedList.java:20-23 | unlinking a node keeps the list free of repeats and leaves the node out |
| LinkedList.DoubleLinkedList.NodesDistinct | LRUCache/src/main/java/org/example/DoubleLinkedList.java:3-4 | no entry node occurs twice in a well-linked list |
| LinkedList.DoubleLinkedList.FirstOnce | LRUCache/src/main/java/org/example/DoubleLinkedList.java:3-4 | the first entry occurs nowhere else in the list |
| LinkedList.DoubleLinkedList.constructor | LRUCache/src/main/java/org/example/DoubleLinkedList.java:6-11 | a new list holds only head and tail, linked to each other in both directions |
| LinkedList.DoubleLinkedList.AddFirst | LRUCache/src/main/java/org/example/DoubleLinkedList.java:13-18 | the node becomes the first entry, before all the others in their order; the list stays well linked |
| LinkedList.DoubleLinkedList.Remove | LRUCache/src/main/java/org/example/DoubleLinkedList.java:20-23 | the node leaves the list, the others keep their order, the list stays well linked, and the unlinked node still points at its old neighbours |
| LinkedList.DoubleLinkedList.MoveToFront | LRUCache/src/main/java/org/example/DoubleLinkedList.java:25-28 | the node becomes the first entry and the others keep their order |
| LinkedList.DoubleLinkedList.RemoveLast | LRUCache/src/main/java/org/example/DoubleLinkedList.java:30-34 | returns the entry before tail and unlinks it; the returned node still points at its old predecessor and at tail |
| LruCache.Lookup | LRUCache/src/main/java/org/example/LRUCache.java:33-38 | a key has a value exactly when it is cached |
| LruCache.WithoutSpec | LRUCache/src/main/java/org/example/LRUCache.java:41-47 | dropping a key removes it and only it: other lookups are unchanged, keys stay distinct, and the size drops by one when it was there |
| LruCache.WithoutIsRemoveAt | LRUCache/src/main/java/org/example/LRUCache.java:41-47 | with distinct keys, dropping a key deletes the one position holding it |
| LruCache.AbsentKey | LRUCache/src/main/java/org/example/LRUCache.java:18 | a key no entry holds is not among the cached keys |
| LruCache.WithoutAbsent | LRUCache/src/main/java/org/example/LRUCache.java:41-47 | dropping an absent key changes nothing |
| LruCache.LookupFirst | LRUCache/src/main/java/org/example/LRUCache.java:33-38 | the most recent entry answers for its key |
| LruCache.LookupAt | LRUCache/src/main/java/org/example/LRUCache.java:33-38 | with distinct keys, any entry answers for its key |
| LruCache.PutThenGet | LRUCache/src/main/java/org/example/LRUCache.java:17-39 | after put(k, v), get(k) returns v and leaves the order as put left it |
| LruCache.WithoutAbsentAfterPut | LRUCache/src/main/java/org/example/LRUCache.java:17-31 | after put(k, v) the key occurs only in the first entry |
| LruCache.WithoutIdempotent | LRUCache/src/main/java/org/example/LRUCache.java:41-47 | removing a key twice is removing it once |
| LruCache.DropLastLookup | LRUCache/src/main/java/org/example/LRUCache.java:23-25 | evicting the least recently used entry forgets exactly its key; every other key looks up as before |
| LruCache.PutOtherKeys | LRUCache/src/main/java/org/example/LRUCache.java:17-31 | put(k, v) keeps every other key's value, except the least recently used key it evicts |
| LruCache.LookupSplit | LRUCache/src/main/java/org/example/LRUCache.java:33-38 | a lookup finds the earliest entry holding the key |
| LruCache.PutEvicts | LRUCache/src/main/java/org/example/LRUCache.java:22-29 | a new key meeting a full, non-empty cache replaces the least recently used entry |
| LruCache.PutBounded | LRUCache/src/main/java/org/example/LRUCache.java:17-31 | put keeps keys distinct, grows by at most one entry, never beyond a non-negative capacity, and adds no key but k |
| LruCache.PutFailsOnlyAtCapacityZero | LRUCache/src/main/java/org/example/LRUCache.java:23-25 | put throws exactly when a new key meets a cache of capacity zero, where removeLast dereferences head's null previous link |
| LruCache.GetKeepsEntries | LRUCache/src/main/java/org/example/LRUCache.java:33-39 | get returns the stored value, keeps every key and value, and makes a found key the most recent |
| LruCache.RecentlyUsedSurvives | LRUCache/src/main/java/org/example/LRUCache.java:17-39 | with capacity at least two, a key just read survives the next put of another key |
| LruCache.RemoveForgets | LRUCache/src/main/java/org/example/LRUCache.java:41-47 | remove(k) forgets k and nothing else |
| LruCache.EntriesMoved | LRUCache/src/main/java/org/example/DoubleLinkedList.java:25-28 | moving a node to the front moves its entry to the front |
| LruCache.EntriesRemoved | LRUCache/src/main/java/org/example/DoubleLinkedList.java:20-23 | unlinking a node drops its entry |
| LruCache.EntriesFirst | LRUCache/src/main/java/org/example/DoubleLinkedList.java:13-18 | the first node's entry heads the entries |
| LruCache.LinkedKeysDiffer | LRUCache/src/main/java/org/example/LRUCache.java:9 | nodes the map links back to hold pairwise different keys |
| LruCache.LinkedKeys | LRUCache/src/main/java/org/example/LRUCache.java:8-9 | the map's keys are exactly the keys of the entries, each once |
| LruCache.KeySetRemoveAt | LRUCache/src/main/java/org/example/LRUCache.java:43-45 | unlinking a node takes out its key and only that |
| LruCache.LinkedMove | LRUCache/src/main/java/org/example/LRUCache.java:21 | moving a node to the front keeps the map linked to the list |
| LruCache.LinkedRemove | LRUCache/src/main/java/org/example/LRUCache.java:43-45 | unlinking a node and dropping its key keeps the map linked to the list |
| LruCache.LinkedEvict | LRUCache/src/main/java/org/example/LRUCache.java:24-25 | removing the last node and its key keeps the map linked to the list |
| LruCache.LinkedAdd | LRUCache/src/main/java/org/example/LRUCache.java:27-29 | a new front node stored under its new key keeps the map linked to the list |
| LruCache.LRUCache.constructor | LRUCache/src/main/java/org/example/LRUCache.java:11-15 | a new cache has the capacity and no entries |
| LruCache.LRUCache.ValidEntries | LRUCache/src/main/java/org/example/LRUCache.java:8-9 | the map's keys are the entries' keys, each once; the cache is empty exactly when head links to tail |
| LruCache.LRUCache.Put | LRUCache/src/main/java/org/example/LRUCache.java:17-31 | the new entries are those of the put specification, or the capacity-zero error with nothing changed |
| LruCache.LRUCache.Update | LRUCache/src/main/java/org/example/LRUCache.java:18-21 | a cached key takes the new value and becomes the most recent entry |
| LruCache.LRUCache.SetValue | LRUCache/src/main/java/org/example/LRUCache.java:20 | the first entry takes the new value |
| LruCache.LRUCache.Touch | LRUCache/src/main/java/org/example/LRUCache.java:21 | the cached key's entry becomes the most recent, with its value unchanged |
| LruCache.LRUCache.Get | LRUCache/src/main/java/org/example/LRUCache.java:33-39 | the value and the new entries are those of the get specification |
| LruCache.LRUCache.Remove | LRUCache/src/main/java/org/example/LRUCache.java:41-47 | the new entries are those of the remove specification |
| LruCache.LRUCache.Unlink | LRUCache/src/main/java/org/example/LRUCache.java:42-46 | the cached key's entry leaves the list and the key leaves the map |
| LruCache.LRUCache.Detach | LRUCache/src/main/java/org/example/LRUCache.java:44 | the key's node leaves the list; the map without the key stays linked to the list |
| LruCache.LRUCache.EvictLeastRecent | LRUCache/src/main/java/org/example/LRUCache.java:23-26 | the least recently used entry leaves the list and its key leaves the map |
| LruCache.LRUCache.InsertFirst | LRUCache/src/main/java/org/example/LRUCache.java:27-29 | a new key's entry goes in front of all the others |
| Connect4.Other | Connect4Game/src/main/java/org/example/GameBoard.java:60 | the other player is never the same player |
| Connect4.OffBoardLine | Connect4Game/src/main/java/org/example/GameBoard.java:74-80 | a line with a cell off the board is never four in a row |
| Connect4.VerticalIsDownward | Connect4Game/src/main/java/org/example/GameBoard.java:91 | for the top piece of a column, the one downward line is the only vertical line through it |
| Connect4.MoveThenCell | Connect4Game/src/main/java/org/example/GameBoard.java:55-56 | after a move the new piece sits on top of its column and the pieces below are unchanged |
| Connect4.ThroughHolds | Connect4Game/src/main/java/org/example/GameBoard.java:69-88 | every line through a cell holds that cell's piece |
| Connect4.WinIncludesPiece | Connect4Game/src/main/java/org/example/GameBoard.java:90-110 | a winning line runs through the new piece, so the win belongs to the player who moved |
| Connect4.GameBoard.constructor | Connect4Game/src/main/java/org/example/GameBoard.java:11-18 | a new board has the given number of empty columns and rows, and the first player to move |
| Connect4.GameBoard.GetCell | Connect4Game/src/main/java/org/example/GameBoard.java:28-39 | the piece at (x, y) when the column is that tall, and nothing (Java null) otherwise |
| Connect4.GameBoard.Move | Connect4Game/src/main/java/org/example/GameBoard.java:41-67 | a full column is refused with nothing changed. Otherwise the piece goes on top of the column, the answer is whether it completes four in a row, and only a non-winning move passes the turn |
| Connect4.GameBoard.CheckLine | Connect4Game/src/main/java/org/example/GameBoard.java:69-88 | true exactly when the four cells of the line are on the board and the player's |
| Connect4.GameBoard.CheckWin | Connect4Game/src/main/java/org/example/GameBoard.java:90-110 | true exactly when the top piece of the column lies on four in a row: vertical, horizontal or either diagonal |
| TicTacToeBoard.CountRowFull | TicTacToe/src/main/java/org/example/models/Board.java:44-46 | a row counts full exactly when none of its squares is empty |
| TicTacToeBoard.CountFull | TicTacToe/src/main/java/org/example/models/Board.java:44-46 | the count of taken squares reaches size * size exactly when no square is empty |
| TicTacToeBoard.CountFullRows | TicTacToe/src/main/java/org/example/models/Board.java:44-46 | the same, for any number of rows of equal length |
| TicTacToeBoard.CountRowUpdate | TicTacToe/src/main/java/org/example/models/Board.java:32-33 | taking an empty square of a row adds one to its count |
| TicTacToeBoard.CountUpdate | TicTacToe/src/main/java/org/example/models/Board.java:32-33 | taking an empty square adds one to the count of the grid |
| TicTacToeBoard.CountEmpty | TicTacToe/src/main/java/org/example/models/Board.java:13-14 | a grid of empty squares counts zero |
| TicTacToeBoard.CountRowEmpty | TicTacToe/src/main/java/org/example/models/Board.java:13-14 | a row of empty squares counts zero |
| TicTacToeBoard.Board.constructor | TicTacToe/src/main/java/org/example/models/Board.java:10-23 | a new board is size by size, every square empty, no moves counted |
| TicTacToeBoard.Board.PlaceSymbol | TicTacToe/src/main/java/org/example/models/Board.java:25-35 | refuses a square off the board or already taken with nothing changed; otherwise sets exactly that square and counts one move; movesCount stays the number of taken squares |
| TicTacToeBoard.Board.GetCell | TicTacToe/src/main/java/org/example/models/Board.java:37-42 | the square's symbol, or nothing (Java null) exactly when off the board |
| TicTacToeBoard.Board.IsFull | TicTacToe/src/main/java/org/example/models/Board.java:44-46 | movesCount is size * size, which while moves are counted means every square is taken |
| TicTacToeStrategy.DiagonalMismatch | TicTacToe/src/main/java/org/example/strategy/DiagonalWinningStrategy.java:9-25 | one square off the symbol on each diagonal rules out a diagonal win |
| TicTacToeStrategy.DiagonalCheck | TicTacToe/src/main/java/org/example/strategy/DiagonalWinningStrategy.java:8-26 | true exactly when the whole main diagonal or the whole anti-diagonal holds the symbol |
| TicTacToeGame.Player.constructor | TicTacToe/src/main/java/org/example/models/Game.java:16-17 | a player keeps its name and symbol |
| TicTacToeGame.WinnerStatus | TicTacToe/src/main/java/org/example/state/InProgressState.java:19 | a win by X is WINNER_X; a win by any other symbol is WINNER_O |
| TicTacToeGame.SwitchTwice | TicTacToe/src/main/java/org/example/models/Game.java:51-53 | switching twice gives the turn back; between two distinct players one switch changes it |
| TicTacToeGame.Game.constructor | TicTacToe/src/main/java/org/example/models/Game.java:24-36 | an empty 3-by-3 board, player 1 to move, no winner, IN_PROGRESS, the in-progress state, strategies row, column, diagonal |
| TicTacToeGame.Game.Check | TicTacToe/src/main/java/org/example/models/Game.java:44 | one strategy's answer for the symbol on the current squares |
| TicTacToeGame.Game.CheckWinner | TicTacToe/src/main/java/org/example/models/Game.java:42-49 | true exactly when some strategy reports a win |
| TicTacToeGame.Game.SwitchPlayer | TicTacToe/src/main/java/org/example/models/Game.java:51-53 | the turn goes to the other player; nothing else changes |
| TicTacToeGame.Game.SetStatus | TicTacToe/src/main/java/org/example/models/Game.java:61-66 | the status is set; a status other than IN_PROGRESS is announced to the observers |
| TicTacToeGame.Game.MakeMove | TicTacToe/src/main/java/org/example/models/Game.java:38-40 | the state decides: after a win every move is refused naming the winner, with nothing changed; in progress, a move succeeds exactly when it is in turn and onto an empty square on the board |
| TicTacToeGame.Game.HandleWhenWon | TicTacToe/src/main/java/org/example/state/WinnerState.java:8-10 | refuses the move, naming the winner |
| TicTacToeGame.Game.Conclude | TicTacToe/src/main/java/org/example/state/InProgressState.java:17-26 | a win makes the mover the winner and ends the game; else a full board is a draw; else the turn passes |
| TicTacToeGame.Game.HandleInProgress | TicTacToe/src/main/java/org/example/state/InProgressState.java:10-27 | a move out of turn or onto a bad square is refused with nothing changed. Otherwise the symbol is placed; a win ends the game with the mover as winner, else a full board is a draw, else the turn passes |
| SnakeModel.NewLadder | SnakeAndLadder/src/main/java/org/example/model/Ladder.java:4-9 | a ladder is built exactly when its start lies below its end, and keeps both ends |
| SnakeModel.NewEntity | SnakeAndLadder/src/main/java/org/example/model/Ladder.java:4-9 | an entity is built exactly when it is a snake or a climbing ladder |
| SnakeModel.Built | SnakeAndLadder/src/main/java/org/example/model/BoardEntity.java:9-10 | the entity keeps its kind and both ends |
| SnakeModel.BuildAllSucceeds | SnakeAndLadder/src/main/java/org/example/session/GameFactory.java:81-92 | a list of entities builds exactly when every ladder climbs, and then yields one entity per element, in order |
| SnakeModel.SnakesAndLadders | SnakeAndLadder/src/main/java/org/example/model/BoardEntity.java:8-10 | every entity is a snake or a ladder |
| SnakeModel.CountBlocks | SnakeAndLadder/src/main/java/org/example/session/GameFactory.java:81-92 | a block of snakes followed by a block of ladders counts as the two block lengths |
| SnakeModel.BuildBlocks | SnakeAndLadder/src/main/java/org/example/session/GameFactory.java:81-133 | a list of snakes then climbing ladders builds, with those counts, every ladder climbing |
| SnakeSession.Next | SnakeAndLadder/src/main/java/org/example/session/GameSession.java:38-91 | a start from CREATED gives RUNNING and any other start is refused; the end of play gives COMPLETED or FAILED by outcome; nothing returns to CREATED |
| SnakeSession.NeverCreatedAgain | SnakeAndLadder/src/main/java/org/example/session/GameSession.java:40-44 | a session that has left CREATED never returns there and never starts again |
| SnakeSession.StartedAtMostOnce | SnakeAndLadder/src/main/java/org/example/session/GameSession.java:69-76 | whatever happens, a session is started at most once, and only from CREATED |
| SnakeSession.GameSession.constructor | SnakeAndLadder/src/main/java/org/example/session/GameSession.java:21-33 | a new session is CREATED with its id, game and creation time, neither started nor ended |
| SnakeSession.GameSession.Begin | SnakeAndLadder/src/main/java/org/example/session/GameSession.java:70-76 | only a CREATED session starts: it becomes RUNNING with the start time; any other is refused, naming its status, with nothing changed |
| SnakeSession.GameSession.Finish | SnakeAndLadder/src/main/java/org/example/session/GameSession.java:78-88 | the end of play: COMPLETED if play returned, FAILED if it threw, with the end time |
| SnakeSession.GameSession.Start | SnakeAndLadder/src/main/java/org/example/session/GameSession.java:69-91 | a session not CREATED is refused with nothing changed. Otherwise it starts and plays to the end, recording both times, and a failed game is an error naming the session |
| SnakeSession.GameSession.StartAsync | SnakeAndLadder/src/main/java/org/example/session/GameSession.java:38-45 | the guarded start; the game runs later in Finish |
| SnakeFactory.CreateGame | SnakeAndLadder/src/main/java/org/example/session/GameFactory.java:34-65 | every template plays on 100 squares with the given players; CUSTOM takes the caller's entities, or none when they are absent |
| SnakeFactory.CreateDefaultGame | SnakeAndLadder/src/main/java/org/example/session/GameFactory.java:27-29 | the template's game without custom entities |
| SnakeFactory.CreateCustomGame | SnakeAndLadder/src/main/java/org/example/session/GameFactory.java:70-76 | the caller's board size, entities and players, unchanged |
| SnakeFactory.ClassicBoard | SnakeAndLadder/src/main/java/org/example/session/GameFactory.java:81-92 | CLASSIC builds into 4 snakes and 4 climbing ladders |
| SnakeFactory.EasyBoard | SnakeAndLadder/src/main/java/org/example/session/GameFactory.java:97-110 | EASY builds into 2 snakes and 8 climbing ladders |
| SnakeFactory.HardBoard | SnakeAndLadder/src/main/java/org/example/session/GameFactory.java:115-133 | HARD builds into 12 snakes and 3 climbing ladders |
| SnakeFactory.TemplatesAlwaysBuild | SnakeAndLadder/src/main/java/org/example/session/GameFactory.java:34-65 | no template makes the factory throw, and every predefined ladder climbs |
| SnakeFactory.CreateQuickSession | SnakeAndLadder/src/main/java/org/example/session/GameFactory.java:138-141 | a CLASSIC game in a new CREATED session |
| SnakeFactory.CreateSession | SnakeAndLadder/src/main/java/org/example/session/GameFactory.java:146-149 | the template's game in a new CREATED session |
| SnakeFactory.CreateCustomSession | SnakeAndLadder/src/main/java/org/example/session/GameFactory.java:154-157 | the caller's board in a new CREATED session |
| SnakeManager.UpperChar | SnakeAndLadder/src/main/java/org/example/session/GameSessionManager.java:38 | upper-cases an ASCII letter and keeps every other character |
| SnakeManager.LowerChar | SnakeAndLadder/src/main/java/org/example/session/GameSessionManager.java:38 | lower-cases an ASCII letter and keeps every other character; the partner of UpperChar |
| SnakeManager.Upper | SnakeAndLadder/src/main/java/org/example/session/GameSessionManager.java:38 | upper-cases a name character by character |
| SnakeManager.Lower | SnakeAndLadder/src/main/java/org/example/session/GameSessionManager.java:38 | lower-cases a name character by character |
| SnakeManager.TemplateOf | SnakeAndLadder/src/main/java/org/example/session/GameSessionManager.java:36-41 | the template whose name is the upper-cased name, and CLASSIC for any other name |
| SnakeManager.TemplateIgnoresCase | SnakeAndLadder/src/main/java/org/example/session/GameSessionManager.java:38 | changing a name's case does not change the template it selects |
| SnakeManager.TemplateNames | SnakeAndLadder/src/main/java/org/example/session/GameSessionManager.java:36-41 | each template's name in any case selects it; an unknown or empty name selects CLASSIC |
| SnakeManager.WithStatus | SnakeAndLadder/src/main/java/org/example/session/GameSessionManager.java:97-101 | exactly the ids whose session has the status |
| SnakeManager.Finished | SnakeAndLadder/src/main/java/org/example/session/GameSessionManager.java:116-121 | exactly the ids whose session is COMPLETED or FAILED |
| SnakeManager.StatsPartition | SnakeAndLadder/src/main/java/org/example/session/GameSessionManager.java:136-161 | the four status counts add up to the total |
| SnakeManager.FinishedCount | SnakeAndLadder/src/main/java/org/example/session/GameSessionManager.java:112-130 | the finished sessions number the COMPLETED plus the FAILED ones |
| SnakeManager.WithStatusRemove | SnakeAndLadder/src/main/java/org/example/session/GameSessionManager.java:143-158 | setting one session aside takes it off its own status count and no other |
| SnakeManager.StatsRemove | SnakeAndLadder/src/main/java/org/example/session/GameSessionManager.java:143-158 | the statistics of all sessions are those of all but one, plus that one |
| SnakeManager.TallyFrame | SnakeAndLadder/src/main/java/org/example/session/GameSessionManager.java:143-158 | counting reads only the statuses of the sessions counted |
| SnakeManager.TallyIsStats | SnakeAndLadder/src/main/java/org/example/session/GameSessionManager.java:143-158 | counting every session once, in any order, gives the statistics |
| SnakeManager.GameSessionManager.constructor | SnakeAndLadder/src/main/java/org/example/session/GameSessionManager.java:20-22 | a new manager stores no session |
| SnakeManager.GameSessionManager.Register | SnakeAndLadder/src/main/java/org/example/session/GameSessionManager.java:44 | stores the session under its id, replacing any other |
| SnakeManager.GameSessionManager.CreateSession | SnakeAndLadder/src/main/java/org/example/session/GameSessionManager.java:35-47 | the named template's game, whatever the case and CLASSIC if unknown, in a new CREATED session stored under its id |
| SnakeManager.GameSessionManager.CreateCustomSession | SnakeAndLadder/src/main/java/org/example/session/GameSessionManager.java:49-54 | the caller's board in a new CREATED session stored under its id |
| SnakeManager.GameSessionManager.CreateSessionFor | SnakeAndLadder/src/main/java/org/example/session/GameSessionManager.java:56-61 | a ready game in a new CREATED session stored under its id |
| SnakeManager.GameSessionManager.GetSession | SnakeAndLadder/src/main/java/org/example/session/GameSessionManager.java:77-79 | the session stored under the id, which carries that id, or nothing exactly when none is stored |
| SnakeManager.GameSessionManager.StartSession | SnakeAndLadder/src/main/java/org/example/session/GameSessionManager.java:63-75 | an unknown id is refused. A session not CREATED is refused, unchanged. Otherwise it starts: in the background only RUNNING with no end time, synchronously to COMPLETED or FAILED by outcome, a thrown game failure coming back as a start failure naming the session |
| SnakeManager.GameSessionManager.SessionsByStatus | SnakeAndLadder/src/main/java/org/example/session/GameSessionManager.java:97-101 | exactly the stored sessions with the status |
| SnakeManager.GameSessionManager.ActiveSessions | SnakeAndLadder/src/main/java/org/example/session/GameSessionManager.java:85-89 | the RUNNING sessions |
| SnakeManager.GameSessionManager.CompletedSessions | SnakeAndLadder/src/main/java/org/example/session/GameSessionManager.java:91-95 | the COMPLETED sessions |
| SnakeManager.GameSessionManager.FiltersPartition | SnakeAndLadder/src/main/java/org/example/session/GameSessionManager.java:97-101 | the four status filters split the stored sessions, each session into exactly one |
| SnakeManager.GameSessionManager.RemoveSession | SnakeAndLadder/src/main/java/org/example/session/GameSessionManager.java:103-110 | true exactly when the id was stored; afterwards it is not, and nothing else changes |
| SnakeManager.GameSessionManager.TotalSessionCount | SnakeAndLadder/src/main/java/org/example/session/GameSessionManager.java:132-134 | the number of stored sessions |
| SnakeManager.GameSessionManager.ClearFinishedSessions | SnakeAndLadder/src/main/java/org/example/session/GameSessionManager.java:112-130 | removes exactly the COMPLETED and FAILED sessions, keeps the rest, and returns how many it removed |
| SnakeManager.GameSessionManager.FinishedIds | SnakeAndLadder/src/main/java/org/example/session/GameSessionManager.java:116-121 | lists the finished ids, each once |
| SnakeManager.GameSessionManager.RemoveAll | SnakeAndLadder/src/main/java/org/example/session/GameSessionManager.java:123-126 | removes exactly the listed ids and counts them |
| SnakeManager.GameSessionManager.GetStats | SnakeAndLadder/src/main/java/org/example/session/GameSessionManager.java:136-161 | the count of sessions per status and the total, which the four counts add up to |
| SnakeManager.GameSessionManager.CountStatuses | SnakeAndLadder/src/main/java/org/example/session/GameSessionManager.java:143-158 | the count of sessions per status |

## Left out

- Threads, locks, `synchronized`, `wait`/`notifyAll` and concurrent maps are not modelled. Each operation runs alone and to completion.
- Console output (`printStates`, `printBoard`, `printSessionsSummary`, `SessionStats.toString`, the `println` calls) and the `main` methods are left out. They print and decide nothing.
- Gossip.Node.SendGossip: the snapshot is a copy of values. The Java snapshot is a shallow copy, so a receiver that inserts an unknown id holds the sender's `NodeState` object, and a later sweep on either node changes both. That aliasing is not modelled.
- Gossip.Node.HeartbeatTick: the heartbeat is an unbounded integer. The 32-bit wrap-around of the Java `int` counter after 2^31 - 1 ticks is not modelled.
- Gossip: the node's run loop, its sleeps and the cluster's start-up are not modelled. The cluster list is a parameter of `SendGossip`.
- Snowflake.Compose: the id is an unbounded integer. The 64-bit overflow of the shifted timestamp, about 69 years after EPOCH, is not modelled. `ShiftOrIsSum` shows that the shifts and ors are the sum on 64-bit words.
- Snowflake.SnowflakeIdGenerator.NextId: `clock` must read later than lastTimestamp eventually when the sequence wraps (`ClockReady`). The Java busy-waits forever otherwise.
- Bloom.BloomFilter.constructor: requires a size in [1, 2^31 - 1]. The Java accepts size 0: with at least one hash function, `add` and `mightContain` then throw on `% 0`; with zero or a negative number of hash functions neither loop runs, so `add` does nothing and `mightContain` answers true. A negative size throws in `new BitSet`.
- Bloom.Mix: `i * 0x5bd1e995` is written as the multiplier added i times with 32-bit wrap-around; that this equals the 32-bit product is not proved, because the verifier cannot relate integer and bit-vector conversions at acceptable cost.
- Bloom.HashCode: `String.hashCode` is computed over the characters as given. Characters outside the 16-bit range are not split into UTF-16 surrogate pairs.
- LruCache.LRUCache.Update: the node is moved to the front before its value is set. The Java sets the value first. The final state is the same.
- LruCache: the sentinel nodes keep the default key and value of their types rather than Java null. Null keys and values are not modelled.
- LruCache.LRUCache.Put: the `NullPointerException` of a new key put into a cache of capacity zero is returned as `Err` with the cache unchanged: `removeLast` on the empty list reads the head sentinel's null `previous` before it stores anything, so no link changes.
- Connect4.GameBoard.Move: the blocking wait for the player's turn is the precondition `player == currentPlayer`. The Java `assert`s on the coordinates are preconditions too, as they are in `GetCell`.
- TicTacToeGame.Game.MakeMove: requires a state other than the draw state, because `DrawState` is not among the modelled sources. Its contract for the in-progress state states the outcome and the move count; the full case split is in `HandleInProgress`.
- TicTacToeGame.Game.constructor: the row and column winning strategies are not among the modelled sources. The game receives them as functions of the squares and the symbol.
- TicTacToeGame: the observer list is not modelled. `notices` records the statuses that `setStatus` announces.
- TicTacToeBoard.Board.constructor: requires a size of at least zero, as a `nat`. A negative size throws in Java when the array is created.
- SnakeModel: the snake class, `Game`, `Game.Builder`, `Dice` and `play()` are not modelled. A `Game` is the board size, entities and player names handed to the builder, and a snake is built from any two squares.
- SnakeSession.GameSession.StartAsync: only the guarded start is modelled. The thread's body is `Finish`, which the caller runs later.
- SnakeSession.GameSession.Start: the `RuntimeException` that wraps a failed game is `Err(GameFailed(sessionId, message))`. The exception's cause is reduced to its message.
- SnakeManager.UpperChar: `toUpperCase` is modelled on ASCII letters only. Java's locale-dependent and full Unicode upper-casing is not modelled.
- SnakeManager.GameSessionManager: the singleton `getInstance`, `getAllSessions` and `GameSession.getSessionInfo` are not modelled. The first is lifecycle and the last two only copy or format the stored sessions.
- SnakeManager.GameSessionManager.SessionsByStatus: the filters return sets of sessions. The Java returns lists in the map's iteration order.
- SnakeManager.GameSessionManager.ClearFinishedSessions: the statuses are read once, as a snapshot. Status changes by running games during the sweep are not modelled. The same holds for `GetStats`.
- SnakeManager.GameSessionManager.StartSession: the `IllegalStateException` and `RuntimeException` the session throws are returned wrapped in `StartFailed`.
