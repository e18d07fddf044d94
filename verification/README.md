# jetpack: map formats, game rules, packet and sprite animation in Dafny

This project models the sequential core of the jetpack game's server and shared headers:

- the first tile-map text format, `GameMap` in `shared_include/MapParser.hpp` (module
  `MapParser`): a header line `"<width> <height>"`, rows over `# C E F .`, a strict file loader,
  a lenient `deserialize`, `serialize` and the out-of-bounds-is-wall `getTile`;
- `MapGenerator::generateTestMap` from the same header (module `MapGenerator`);
- the second tile-map text format, `Map` in `server_src/map.cpp` (module `ServerMap`): rows over
  `# . $ E S s F`, with the coin, obstacle and start-position lists and the finish position built
  while parsing, the cell queries and `serialize`;
- the server game rules of `server_src/Game.cpp` (module `Game`): `loadMap`'s grid and start
  markers, `init`, `updatePlayer`'s gravity/jetpack physics with wall rejection,
  `checkCollisions`, `update`, `isGameOver`, `getWinner`, `getTileAt`/`isValidPosition` and
  `charToTile`;
- the `PacketModule` value object of `server_src/packet.cpp` (module `Packet`);
- `Animation` and `AnimatedSprite` of `shared_include/Animation.hpp` (module `Animation`), with
  the frame type as a type parameter.

Two shared modules carry what the formats need from the C++ streams: `Text` splits a text into
the lines `std::getline` yields and reads an `int` as `operator>>` does in the "C" locale (skip
white space, optional sign, at least one digit, failure when the value does not fit in 32 bits),
and prints integers as `operator<<` does. `Window` holds the row-major scan over a `width` by
`height` window of those lines that the `map.cpp` and `Game.cpp` loaders share, and the "last
position of a marker" invariant both rely on. `Outcomes` holds `Option` and `Result`.

Everything is an immutable value and every operation a pure function: a C++ method that mutates
`*this` returns the new value. Files are replaced by their text (a `string`), floats by `real`.

## Model

| member | source | states |
|---|---|---|
| MapParser.GetTile | shared_include/MapParser.hpp:26-31 | inside the map the stored tile, everywhere outside it a wall |
| MapParser.CharOfTile | shared_include/MapParser.hpp:108-125 | the character written for each tile reads back as that tile, and is neither a newline nor a digit; an empty tile is written as `.` |
| MapParser.TileOfCharCases | shared_include/MapParser.hpp:68-85 | exactly the four letters `# C E F` decode to a non-empty tile, and each is the letter written for its tile |
| MapParser.ParseHeader | shared_include/MapParser.hpp:46-58 | the header is accepted iff a first line exists and starts with two integers that are both positive; a missing line and a bad line are distinguished |
| MapParser.LoadRows | shared_include/MapParser.hpp:61-93 | the row loop succeeds iff at least `height` rows follow and each of the first `height` has at least `width` characters; on success the grid holds the decoded first `width` characters of each; a failure names the first short row or the number of rows present |
| MapParser.LoadFromLines | shared_include/MapParser.hpp:34-96 | the strict loader accepts iff the header is valid, more than `height` lines exist and every map row is long enough; an accepted map is `height` by `width` with each tile decoded from its character |
| MapParser.LoadIgnoresExtraRows | shared_include/MapParser.hpp:61 | lines after the `height`-th row never change what the strict loader returns |
| MapParser.LoadIgnoresExtraColumns | shared_include/MapParser.hpp:62-86 | characters past the `width`-th column never change what the strict loader returns |
| MapParser.FillRows | shared_include/MapParser.hpp:154-195 | the lenient row loops always give `height` rows of `width` tiles: a present character is decoded, a padded or missing one is empty |
| MapParser.Deserialize | shared_include/MapParser.hpp:134-198 | `deserialize` fails only on the header; otherwise the map is `height` by `width`, with each tile decoded from its character or empty where the text has none |
| MapParser.DeserializeAgreesWithLoad | shared_include/MapParser.hpp:134-198 | whenever the strict loader accepts a text, `deserialize` returns the same map |
| MapParser.Serialize | shared_include/MapParser.hpp:99-131 | the text ends in a newline, splits into `1 + height` lines, the first reads back as the two dimensions, and each later line has `width` characters that decode to that row's tiles; exactly, the lines are the header `"<width> <height>"` as `operator<<` prints it followed by one line per row holding each tile's character (`.` for an empty tile) |
| MapParser.DeserializeOfSerialize | shared_include/MapParser.hpp:99-198 | every map with positive 32-bit dimensions and a `height` by `width` grid survives `serialize` then `deserialize` unchanged |
| MapParser.LoadOfSerialize | shared_include/MapParser.hpp:34-131 | such a map also survives `serialize` then the strict loader unchanged |
| MapGenerator.GenerateTestMap | shared_include/MapParser.hpp:205-237 | the generated map is `width` by `height` and each tile is the one the wall, coin, obstacle and end-marker passes leave there, later passes winning |
| MapGenerator.PlaceWalls | shared_include/MapParser.hpp:211-215 | after the wall pass rows 0 and `height - 1` are walls and every other tile is empty |
| MapGenerator.PlaceCoins | shared_include/MapParser.hpp:217-222 | the coin pass puts a coin on every 7th column from 5 and every 5th row from 3 below `height - 3`, and leaves all other tiles as the wall pass left them |
| MapGenerator.PlaceObstacles | shared_include/MapParser.hpp:224-229 | the obstacle pass puts an electric tile on every 15th column from 10 and every 8th row from 5 below `height - 5`, and leaves all other tiles as before |
| MapGenerator.BorderRows | shared_include/MapParser.hpp:211-234 | from three rows on the top and bottom rows are all wall; on maps of one or two rows wider than 10 the end marker lands on the bottom row |
| MapGenerator.EndMarkerPlacement | shared_include/MapParser.hpp:231-234 | a tile is the end marker iff the map is wider than 10 and the tile is at (`width - 5`, `height / 2`) |
| ServerMap.GetCellAt | server_src/map.cpp:80-85 | inside the map the stored cell, outside it a wall |
| ServerMap.IsCellWalkable | server_src/map.cpp:87-89 | walkable iff inside the map and not a wall cell |
| ServerMap.IsCellCoin | server_src/map.cpp:91-93 | true iff inside the map on a coin cell |
| ServerMap.IsCellElectric | server_src/map.cpp:95-97 | true iff inside the map on an electric cell |
| ServerMap.IsCellFinish | server_src/map.cpp:99-101 | true iff inside the map on a finish cell |
| ServerMap.GetStartPosition | server_src/map.cpp:103-108 | the listed start for an index that has one, (0, 0) for any other index |
| ServerMap.Parse | server_src/map.cpp:10-78 | parsing fails with no first line, with a first line lacking two integers, and with a negative dimension, each exactly then; otherwise the dimensions are the header's and every cell is decoded from the character the row loops read there, empty where they read none |
| ServerMap.ParseLists | server_src/map.cpp:35-75 | after a parse the coin and obstacle lists hold exactly the `$` and `E` cells in row-major order, the start list the `S` and `s` cells in row-major order padded with (0, 0) to at least two, and the finish position is the last `F` read or (0, 0) |
| ServerMap.BuildLists | server_src/map.cpp:193-239 | the same list facts for the row loops of `deserialize` over any rows and dimensions |
| ServerMap.Serialize | server_src/map.cpp:130-176 | the text ends in a newline, its first line reads back as the dimensions, and its row lines are exactly the characters the cell switch chooses, an empty cell becoming `F`, `S`/`s` or `.` by the finish and start positions |
| ServerMap.Deserialize | server_src/map.cpp:178-242 | `deserialize` fails iff the text has no first line, the first line does not start with two integers, or one is negative; otherwise the map is well shaped with the header's dimensions and each cell decoded from the character read there |
| ServerMap.ReadText | server_src/map.cpp:178-242 | a text whose header reads as two non-negative integers deserialises to the map its rows build |
| ServerMap.ReadBack | server_src/map.cpp:130-242 | reading back what the serialiser wrote gives, at every cell, the cell of the character written there |
| ServerMap.CompareGrids | server_src/map.cpp:136-170 | a grid read back from the written characters equals the original iff no empty cell sits on the finish position (always, for the corrected writer) |
| ServerMap.GridRoundTrip | server_src/map.cpp:130-242 | serialising and reading back reproduces the grid iff the finish position is not an empty cell of the map |
| ServerMap.PhantomFinish | server_src/map.cpp:60-63 | parsing rows with no `F` and an empty top-left cell leaves the finish position at (0, 0) on an empty cell |
| ServerMap.PhantomExample | server_src/map.cpp:178-242 | the two-line text "2 1" / ".." parses, and meets the conditions of the finding |
| ServerMap.PhantomWritten | server_src/map.cpp:140-143 | such a map, serialised and read back, has a finish cell at (0, 0) |
| ServerMap.FixedGridRoundTrip | server_src/map.cpp:130-176 | with empty cells never written as `F`, every map's grid survives serialising and reading back |
| Game.NewPlayers | server_src/Game.cpp:3-5 | the constructed game holds ten default players |
| Game.FreshIsValid | server_src/Game.cpp:3-5 | the constructed game is well formed, not started, not over, with default players |
| Game.CharToTile | server_src/Game.cpp:237-247 | each of `# $ E S s F` gives its own tile kind, and only that character gives it; every other character is empty |
| Game.CoinDialect | server_src/Game.cpp:240 | a coin written in the `MapParser` format (`C`) is empty for the server, and the server's coin (`$`) is empty for `MapParser` |
| Game.Trunc | server_src/Game.cpp:250-251 | the cast rounds toward zero: down for non-negative values, up for negative ones |
| Game.IsValidPosition | server_src/Game.cpp:249-254 | a position is valid iff the grid is non-empty and both coordinates lie strictly between -1 and the dimension, the band the cast toward zero gives |
| Game.ValidPositionBand | server_src/Game.cpp:249-265 | because the cast rounds toward zero, a position with -1 < x < 0 reads the tile of column 0 rather than a wall, and one with -1 < y < 0 the tile of row 0 |
| Game.GetTileAt | server_src/Game.cpp:256-265 | an invalid position reads as a wall, a valid one as the tile at the truncated coordinates |
| Game.LoadMap | server_src/Game.cpp:10-45 | loading fails exactly on a negative dimension; otherwise the game is well formed with the header's dimensions, each cell is the tile of the character read there (empty where none is read), no start marker stays in the grid, and slots 2 onwards keep default players |
| Game.Load | server_src/Game.cpp:22-41 | the row loops over a fresh game give the grid of read characters with start markers erased, not started |
| Game.LoadStarts | server_src/Game.cpp:31-39 | player 1 stands on the last `S` read and player 2 on the last `s`, each at (0, 0) when its marker is absent |
| Game.ReadHeader | server_src/Game.cpp:18-19 | both numbers fit in 32 bits and the body is a suffix of the text; when both reads succeed the header holds the two numbers and the body is the text after them less the one ignored character; a failed width gives a 0 by 0 header with nothing left, a failed height keeps the width with height 0 and nothing left |
| Game.ReadHeaderOfText | server_src/Game.cpp:18-19 | a header "width height" followed by a newline reads back as those numbers and leaves exactly the text after the newline |
| Game.LoadMapOfText | server_src/Game.cpp:10-45 | a map file written as a header and newline-terminated rows loads exactly those rows |
| Game.Init | server_src/Game.cpp:47-60 | every player is alive, unfinished, with no score, at rest with the jetpack off, at the same position; the game is started and not over |
| Game.InitUndecided | server_src/Game.cpp:186-235 | a just-started game is not over and has no winner |
| Game.NextVelY | server_src/Game.cpp:103-114 | the vertical velocity is the old one minus 25 dt with the jetpack on, plus 20 dt with it off, kept when within -10 to 10 and otherwise cut to the nearer of -10 and 10 |
| Game.Bounded | server_src/Game.cpp:121-127 | above the map (y < 0) the target becomes row 0 at rest; at or below the bottom edge it becomes `height - 0.1` at rest; a row already on the map is kept with its velocity; on a non-empty map the result always lies on it |
| Game.UpdatePlayer | server_src/Game.cpp:83-147 | a missing, dead or finished player is left alone; otherwise only that player changes, with the jetpack flag stored, horizontal speed 5, vertical speed within -10 to 10, a horizontal advance of 5 dt whatever the map holds, and score, life and finish unchanged; when the tile at the new column and the edge-clamped target row is not a wall, the player takes that row and velocity, and when it is a wall the player stops vertically at the ceiling of its old row position |
| Game.WallHitRoundsUp | server_src/Game.cpp:137-145 | a player blocked by a wall always stops vertically and is snapped up to the ceiling of its old row position, whatever its direction |
| Game.StaysOnMap | server_src/Game.cpp:121-146 | a player whose row position is in [0, height] before a step is in [0, height] after it |
| Game.FallIntoWall | server_src/Game.cpp:137-145 | the finding: a player falling at full speed from y = 0.5 onto a wall in row 1 ends at y = 1.0, on the wall tile |
| Game.UpdatePlayerFixed | server_src/Game.cpp:83-147 | the corrected step changes only the given active player and nothing for an inactive one |
| Game.WallHitKeepsSide | server_src/Game.cpp:140-145 | with the snap chosen by the direction of travel, a blocked player never moves toward the wall that stopped it |
| Game.FallOntoWallFixed | server_src/Game.cpp:140-145 | in the finding's example the corrected step leaves the player at y = 0.0 on the empty tile above the wall |
| Game.CheckCollisions | server_src/Game.cpp:149-184 | only the given player can change; scores never drop, death and finishing stick, no one moves, and an inactive player changes nothing; the map changes only when an active player stands on a coin, and then only that cell, which becomes empty; the checked player ends exactly as the reference `Collided` says, so only its score, life or finish flag can change |
| Game.CollisionEffect | server_src/Game.cpp:160-183 | on a coin the player gains exactly one point and the tile becomes empty, on an electric tile the player dies and on the finish the player finishes, both leaving the map as it was, and any other tile changes nothing |
| Game.CheckCollisionsIdempotent | server_src/Game.cpp:162-168 | checking the same player twice is checking once: a collected coin cannot be collected again |
| Game.CheckCollisionsConserves | server_src/Game.cpp:163-168 | coins left on the map plus points scored stay the same |
| Game.CollideFrom | server_src/Game.cpp:68-75 | the player loop keeps the map well formed and moves no one; each player ends as the loop-free reference `Collided` says (untouched unless racing; a racing player on an electric tile dies, on the finish finishes, on a coin scores one point unless an earlier racing slot stands on the same cell) and each cell as `CollidedTile` says (a coin under a racing player becomes empty, every other cell is kept) |
| Game.CollideFromConserves | server_src/Game.cpp:68-75 | the player loop conserves coins plus points |
| Game.Update | server_src/Game.cpp:62-81 | before the start and after the end nothing changes; otherwise every player and every cell end as the loop-free references `Collided` and `CollidedTile` say for the loop from slot 0, and the game ends exactly when the end-of-game test holds afterwards |
| Game.UpdateEffects | server_src/Game.cpp:68-75 | in a running game a racing player on an electric tile ends dead, on the finish finished, and on a coin no earlier racing slot shares gains one point and leaves that cell empty |
| Game.SharedCoin | server_src/Game.cpp:68-75 | of two racing players on one coin, the first racing slot on that cell scores it and the later one scores nothing |
| Game.UpdateConserves | server_src/Game.cpp:62-81 | an update never creates or loses a coin |
| Game.AllDoneOrDead | server_src/Game.cpp:188-195 | the loop's flag is true iff every player it looks at is dead or finished |
| Game.IsGameOver | server_src/Game.cpp:186-201 | the game is over iff player 1 or player 2 is dead, or both have finished; later slots are never consulted |
| Game.GetWinner | server_src/Game.cpp:203-235 | -1 iff the game runs or nobody is dead or finished; 0 iff over with player 1 alive and player 2 dead, or player 1 finished and player 2 unfinished or not ahead; 1 in the mirrored cases, where player 1's death wins it for player 2 |
| Game.OverIsDecided | server_src/Game.cpp:186-235 | a game that has ended always has a winner |
| Game.BothDeadSecondWins | server_src/Game.cpp:209-211 | when both first players are dead, player 2 is declared the winner |
| Game.EqualFinishFirstWins | server_src/Game.cpp:217-228 | when both finish with the same score, player 1 is declared the winner |
| Packet.NewWith | server_src/packet.cpp:13-19 | the counted constructor stores the client count, receiver 0, every slot waiting at (0, 0) and an all-zero map buffer |
| Packet.New | server_src/packet.cpp:5-11 | the default constructor stores no clients, receiver 0, every slot waiting at (0, 0) and an all-zero map buffer |
| Packet.NewIsNewWithZero | server_src/packet.cpp:5-19 | the default constructor is the counted one with zero clients |
| Packet.Copy | server_src/packet.cpp:21 | a copy holds the original's whole packet, map buffer and every slot included, so it reports the same receiver, client count, state and position |
| Packet.SetPacket | server_src/packet.cpp:44-47 | `setPacket` replaces the whole packet, and afterwards every accessor reports the new packet's values for its receiver |
| Packet.GetState | server_src/packet.cpp:24-27 | the state stored in the receiver's own slot, one of the packet's states |
| Packet.GetPosition | server_src/packet.cpp:29-32 | the position stored in the receiver's own slot, one of the packet's positions |
| Packet.GetClientId | server_src/packet.cpp:34-37 | the receiver id stored in the packet |
| Packet.GetNbClient | server_src/packet.cpp:39-42 | the client count stored in the packet |
| Packet.FreshAccessors | server_src/packet.cpp:13-42 | a just-constructed module reports receiver 0, the given count, waiting, at (0, 0) |
| Packet.SetPacketLastWins | server_src/packet.cpp:44-47 | setting twice keeps only the second packet, and setting a module's own packet changes nothing |
| Animation.New | shared_include/Animation.hpp:10 | a new animation has no frames, frame 0, no time, 0.1 s per frame, is stopped and loops |
| Animation.AddFrame | shared_include/Animation.hpp:13-15 | the frame is appended; the current frame, the time, the frame duration and the playing and loop flags are all kept |
| Animation.SetFrameTime | shared_include/Animation.hpp:18-20 | only the duration of a frame changes |
| Animation.SetLoop | shared_include/Animation.hpp:23-25 | only the loop flag changes |
| Animation.Play | shared_include/Animation.hpp:28-30 | the animation plays from the frame and time where it stood, with frames and settings unchanged |
| Animation.Stop | shared_include/Animation.hpp:33-37 | stopping leaves the animation not playing on frame 0 with no time, keeping frames and settings |
| Animation.Pause | shared_include/Animation.hpp:40-42 | pausing leaves it not playing and keeps the frame and the time |
| Animation.Update | shared_include/Animation.hpp:45-64 | the current frame stays in range, frames and settings never change, a stopped animation ignores time, time short of a frame only accumulates, and once a frame's time has gathered with a next frame available the animation moves to it and keeps the time left over |
| Animation.UpdateStep | shared_include/Animation.hpp:49-63 | one update moves at most one frame (on, or back to the first), only once a whole frame's time has gathered, and then takes exactly one frame's time off (all of it when a one-shot animation stops) |
| Animation.LoopWraps | shared_include/Animation.hpp:53-57 | a looping animation past its last frame returns to frame 0 and keeps playing |
| Animation.OneShotEndsOnFirstFrame | shared_include/Animation.hpp:58-61 | a one-shot animation past its last frame ends exactly as if stopped: not playing, frame 0, no time |
| Animation.PauseResumes | shared_include/Animation.hpp:28-42 | pause then play resumes where it was; stop then play restarts from frame 0 |
| Animation.IdleIgnoresTime | shared_include/Animation.hpp:45-47 | a paused or stopped animation is unchanged by time |
| Animation.GetCurrentFrame | shared_include/Animation.hpp:67-69 | the frame returned is the one at the current index, and so one of the animation's frames |
| Animation.NewSprite | shared_include/Animation.hpp:88 | a new sprite stores nothing, selects nothing, and has current name "" |
| Animation.AddAnimation | shared_include/Animation.hpp:91-93 | the animation is stored under its name, replacing any previous one; every other name keeps its animation, no other name is added, and the selection, current name and shown frame are kept |
| Animation.PlayNamed | shared_include/Animation.hpp:96-105 | a name that differs from the current one and is stored becomes current, is set playing from where it was and its current frame is shown; any other name changes nothing |
| Animation.PlayIdempotent | shared_include/Animation.hpp:96-105 | playing the same name twice is playing it once |
| Animation.PlaySelects | shared_include/Animation.hpp:96-105 | after playing a new stored name the sprite is playing it |
| Animation.ReplayAfterStop | shared_include/Animation.hpp:96-124 | replaying the current name after `stop` does not restart it |
| Animation.EmptyNameIgnoredWhileCurrent | shared_include/Animation.hpp:88-105 | `play("")` changes nothing on a sprite whose current name is "", so a fresh sprite ignores it even when an animation is stored under "" |
| Animation.EmptyNamePlaysAfterOther | shared_include/Animation.hpp:96-105 | once another stored name has been played, `play("")` does select and play the animation stored under "" |
| Animation.UpdateSprite | shared_include/Animation.hpp:108-113 | a sprite that is not playing is unchanged; a playing one updates its selected animation, leaves every other stored animation and the selection alone, and shows the updated animation's current frame |
| Animation.StopSprite | shared_include/Animation.hpp:121-124 | with an animation selected, exactly that animation is stopped (frame 0, no time) and the shown frame and other animations are left alone; with none selected nothing changes |
| Text.LinesOfUnlines | shared_include/MapParser.hpp:127-156 | lines written one per '\n' split back into exactly those lines |
| Text.UnlinesOfLines | server_src/map.cpp:178-199 | splitting a text into lines and writing them back loses at most a missing final '\n' |
| Text.ReadIntOfPrinted | shared_include/MapParser.hpp:103-142 | an int printed in decimal reads back as the same int, leaving what follows unread |
| Text.ReadDimensionLine | server_src/map.cpp:132-185 | the dimension line "a b" reads back as the pair (a, b) whenever both fit in 32 bits |

## Left out

- File I/O: opening, reading and writing files (`loadFromFile`, `saveMapToFile`, `loadMap`) is replaced by the file's text; the "failed to open" paths are not modelled.
- Logging to `std::cerr`/`std::cout`, including `PacketModule::display`.
- Floating point: positions, velocities and times are `real`, with 20, 25, 5, 10 and 0.1 taken exactly; no float rounding is modelled, only the truncating casts in `getTileAt` and the floor/ceil snap.
- Game.Update: the `deltaTime` argument of `update` is never read by the source, so the model has none.
- Game.Trunc: `static_cast<int>` of a float outside the `int` range is undefined behaviour in C++; the model returns the mathematical truncation, which only matters for positions beyond 2^31.
- Score overflow: `score` is an unbounded integer; a 32-bit overflow after 2^31 coins is not modelled.
- Game.ReadHeader: an integer too large for 32 bits stores `INT_MAX` or `INT_MIN` in the C++ stream; the model treats it as a failed read (0), so such headers are not modelled faithfully.
- MapParser.ParseHeader: three headers the model rejects as invalid dimensions are not rejected as such by the source. A first line that ends before the width or before the height ("", "5", "5 ") stores nothing, so the `<= 0` test reads an uninitialised field of `GameMap`. An out-of-range width is stored as `INT_MAX` or `INT_MIN` and leaves `height` unread, so `INT_MAX` also reaches the uninitialised height. An out-of-range height with a valid width is stored as `INT_MAX`, passes the test and goes on to a huge `resize`. The model does not describe these undefined or allocation-failure paths.
- Reuse of a populated object: `Map::deserialize` and `Game::loadMap` are modelled on a freshly constructed object only; on a reused one `grid.resize` keeps old rows and `finishPosition` is not cleared.
- MapGenerator.GenerateTestMap: negative sizes (the allocation throws) and a zero height with a positive width (the source writes to a row that does not exist) are excluded by its precondition rather than modelled.
- Packet.GetState, Packet.GetPosition: an out-of-range `client_id` indexes outside the arrays; the precondition requires a valid slot.
- Animation.GetCurrentFrame, Animation.PlayNamed, Animation.UpdateSprite: reading a frame of an animation with no frames is out of bounds in the source, so these require the shown animation to have frames.
- The packet's map buffer is modelled as bytes 0..255; the program's `char` may be signed, which only matters for values the modelled operations never write.
- `shared_include/Packet.hpp` sizes the arrays with `MAX_CLIENT` while `shared_include/Error.hpp` defines `MAX_CLIENTS`, and it declares `~PacketModule() = default` and neither the default nor the copy constructor that `server_src/packet.cpp` defines; the model follows `packet.cpp`, with `MAX_CLIENTS` = 10 from `shared_include/Error.hpp`.
- Animation.Update: on an empty frame list a one-shot animation assigns `frames.size() - 1`, which wraps to the largest `size_t`, and is then stopped; the model writes the wrap out but the value is overwritten at once.
- `AnimatedSprite` inherits from `sf::Sprite`; only the texture rectangle it sets is modelled (`shown`), as the rest is rendering.
- `Map::getFinishPosition`, `getWidth`, `getHeight`, `getCoins`, `getObstacles` return stored fields and are the fields of `ServerMap.Map`; `Animation::playing` is the `isPlaying` field.

## Findings

| source | as written | input that shows it | evidently intended | confidence | as-written member | corrected member |
|---|---|---|---|---|---|---|
| server_src/map.cpp:140-143 | `serialize` writes an empty cell as `F` whenever it equals `finishPosition`, and a map without any `F` keeps `finishPosition` at its value-initialised (0, 0) | the text "2 1" then ".." parses to two empty cells with finish position (0, 0); serialising writes "F." and reading back gives a finish cell at (0, 0) that was never in the map | an empty cell is written as `.` or a start marker only; finish cells are already written as `F` | high; not executed | ServerMap.PhantomWritten | ServerMap.FixedGridRoundTrip |
| server_src/Game.cpp:137-145 | `velY` is set to 0 before the test `velY > 0`, so the floor branch is dead and a blocked player is always rounded up (down the screen) | a one-column map with a wall in row 1; player 0 at y = 0.5 falling at 10, step 0.1 s: the target y = 1.5 is a wall, and the player is put at y = 1.0, on the wall tile | a player falling onto a wall is snapped to the floor of its row position (0.0), above the wall | high; not executed | Game.FallIntoWall | Game.WallHitKeepsSide |
