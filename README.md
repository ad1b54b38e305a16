# Maze solver and attendance rules in Dafny

This project models two small pieces of one repository and proves properties
of them.

- **The maze solver game** (`maze-solver-game/maze_game.py`). A grid of
  characters: `'1'` is a wall, `'S'` is the start and `'G'` is the goal.
  - A row-major scan places the player and the goal.
  - The W/A/S/D keys move the player one cell, but only into an in-bounds
    cell that is not a wall.
  - SPACE runs a breadth-first search and shows the path it finds.
  - The search keeps a FIFO queue of (cell, path so far) entries. It marks a
    cell visited when it enqueues it. It answers the first dequeued path that
    ends at the goal, or the empty path once the queue is empty.
- **The attendance rules** (`attendance/utils.py` of the location-attendance
  project). These are the guards and branches that decide:
  - whether a check-in lies inside the office geofence;
  - how a distance is displayed;
  - how many hours lie between check-in and check-out;
  - whether an employee is present, late or absent.

Files:

- `wrappers.dfy`: the `Option` type, which stands for Python's `None` or a value.
- `maze_grid.dfy`: cells, moves, walks and paths, and the row-major `Find`.
- `maze_search.dfy`: the breadth-first search as an imperative loop over a
  queue and a visited set, proved against a shortest-path specification.
- `maze_game.dfy`: the key rule and a `Game` class whose `KeyDown` updates
  the player and the displayed path.
- `attendance_utils.dfy`: the attendance rules as pure functions.

The module-level globals `maze`, `player`, `goal`, `ROWS` and `COLS` become
fields of `Game`, or parameters of the search.

Python truthiness is written out:

- A coordinate is false when it is `None` or `0.0`, so a check-in exactly on
  the equator or the prime meridian gets no distance.
- A datetime is always true, so a time is false only when it is `None`.
- Times are whole seconds since an epoch.

The browser script's own `formatDistance` (`static/js/main.js`) puts a
space before the unit. The server-side `format_distance` in `utils.py`
writes none. The model follows `utils.py`.

## Model

| member | source | states |
|---|---|---|
| MazeGrid.Find | maze-solver-game/maze_game.py:25-29 | The result is the first cell in row-major order holding the symbol: it is in bounds, it holds the symbol, and no cell before it does. The result is None exactly when no cell of the grid holds the symbol. |
| MazeGrid.ShortestIsSimple | maze-solver-game/maze_game.py:64-84 | A shortest path from start to goal never visits a cell twice. A repeated cell would let the loop be cut out, giving a shorter path. |
| MazeGrid.CutLoop | maze-solver-game/maze_game.py:74-82 | Cutting out the stretch between two visits of one cell leaves a strictly shorter path to the same end. |
| MazeSearch.Bfs | maze-solver-game/maze_game.py:64-84 | The empty path is answered exactly when no walk leads from the player to the goal. A non-empty answer starts at the player and ends at the goal. Consecutive cells are one move apart. Every cell after the first is in bounds and not a wall. No path to the goal has fewer cells, and the answer repeats no cell. When the player stands on the goal the answer is exactly `[player]`. A ghost log of the enqueued cells, appended at each enqueue, starts at the player, has every later cell passable and never holds a cell twice. |
| MazeSearch.Expand | maze-solver-game/maze_game.py:74-82 | The old queue stays in front, as a FIFO append leaves it. Every new entry is a neighbour of the dequeued cell that is in bounds, not a wall and was not visited before. Its path is the dequeued entry's path extended by that neighbour. The newly visited cells are exactly the new entries' cells. Every passable neighbour not visited before is among them. Afterwards every passable neighbour of the dequeued cell is visited. Each entry carries a shortest path to its cell. The queue stays sorted by path length within one step of the head, and no cell appears in it twice. |
| MazeSearch.Found | maze-solver-game/maze_game.py:69-72 | A dequeued entry whose cell is the goal carries a shortest path to the goal. That path has no repeated cell. It is `[player]` when the player is on the goal. |
| MazeSearch.Exhausted | maze-solver-game/maze_game.py:68-84 | When the queue runs dry, every walk from the player ends in a closed cell and the goal is not one of them, so the goal is unreachable. |
| MazeSearch.AdvanceFrontier | maze-solver-game/maze_game.py:65-82 | The queue is FIFO and path lengths stay within one step of the head. Therefore every walk shorter than the new head's path ends in a cell already dequeued. |
| MazeSearch.ClosedHoldsWalks | maze-solver-game/maze_game.py:74-84 | A walk from a closed start through a set closed under moves never leaves that set. |
| MazeGame.Offset | maze-solver-game/maze_game.py:101-108 | Only W, A, S and D have an offset, and each offset is one of the four moves. |
| MazeGame.KeyFor | maze-solver-game/maze_game.py:101-108 | Every one of the four moves has a direction key with exactly that offset. |
| MazeGame.MoveRule | maze-solver-game/maze_game.py:98-117 | A key press moves the player exactly when it is W/A/S/D and the target cell is in bounds and not a wall. The move is one step into a passable cell. SPACE and every other key never move the player. |
| MazeGame.PlayIsWalk | maze-solver-game/maze_game.py:98-117 | Wherever a sequence of key presses leaves the player, a walk from the start leads there. |
| MazeGame.WalkIsPlay | maze-solver-game/maze_game.py:98-117 | Every walk can be followed with key presses, one per step. |
| MazeGame.ReachableByKeys | maze-solver-game/maze_game.py:98-117 | The goal is reachable exactly when some sequence of key presses brings the player there. With `Bfs`, this means SPACE shows no path exactly when no key sequence reaches the goal. |
| MazeGame.Game.constructor | maze-solver-game/maze_game.py:15-32 | The player starts on the first `'S'` and the goal is the first `'G'`, both in row-major order. The player's cell is passable. No path is shown. |
| MazeGame.Game.KeyDown | maze-solver-game/maze_game.py:98-117 | A direction key moves the player by the move rule and keeps the path. SPACE keeps the player and shows a shortest path without repeats, or the empty path exactly when the goal is unreachable. Any other key changes nothing. The player always stands on a passable cell. |
| AttendanceUtils.CalculateDistance | Desktop/location_attendance_project/attendance_system/attendance/utils.py:5-31 | There is no distance exactly when some coordinate is None or 0.0. Otherwise the distance is the great-circle formula on the four coordinates in order. |
| AttendanceUtils.IsWithinDistance | Desktop/location_attendance_project/attendance_system/attendance/utils.py:34-41 | An unknown distance is never within the geofence. |
| AttendanceUtils.WithinDistanceBoundary | Desktop/location_attendance_project/attendance_system/attendance/utils.py:34-41 | The bound is inclusive: exactly the allowance is within and anything greater is not. Widening the allowance never excludes an admitted distance. The default allowance is 500 m: 500 is within and 500.01 is not. |
| AttendanceUtils.ZeroCoordinateNeverWithin | Desktop/location_attendance_project/attendance_system/attendance/utils.py:11-12 | Any of the four coordinates being exactly 0.0 yields no distance. This covers the office's and the check-in's latitude and longitude. The check-in is then outside the geofence whatever the allowance. |
| AttendanceUtils.FormatDistance | Desktop/location_attendance_project/attendance_system/attendance/utils.py:44-51 | None is "N/A". Below 1000 the metre branch shows the distance itself. At 1000 and above the kilometre branch shows a number at least 1 that is the distance divided by 1000. |
| AttendanceUtils.Render | Desktop/location_attendance_project/attendance_system/attendance/utils.py:46-51 | An unknown distance is shown as "N/A". The metre branch is the number printed with no decimals followed by "m". The kilometre branch is the number printed with two decimals followed by "km". |
| AttendanceUtils.RenderUnit | Desktop/location_attendance_project/attendance_system/attendance/utils.py:46-51 | With number formatters that print only digits, a point and a sign, the text is "N/A" exactly when the distance is unknown. A known distance ends in "km" exactly when it is at least 1000. |
| AttendanceUtils.FormatDistanceBoundary | Desktop/location_attendance_project/attendance_system/attendance/utils.py:46-51 | 999.99 is shown in metres, exactly 1000 is shown as 1 km, and None renders as "N/A". |
| AttendanceUtils.CalculateWorkingHours | Desktop/location_attendance_project/attendance_system/attendance/utils.py:54-61 | There are no hours exactly when either time is missing. Otherwise the hours times 3600 equal the seconds between check-in and check-out. |
| AttendanceUtils.WorkingHoursAdd | Desktop/location_attendance_project/attendance_system/attendance/utils.py:59-60 | Before rounding, hours add up across an intermediate time. They are negative exactly when check-out precedes check-in. |
| AttendanceUtils.DetermineAttendanceStatus | Desktop/location_attendance_project/attendance_system/attendance/utils.py:64-77 | The status is absent exactly when there is no check-in. It is late exactly when an expected time exists and the delay is strictly more than the threshold in minutes. It is present otherwise, including when there is no expected time. It is always one of the three. |
| AttendanceUtils.Status.Label | Desktop/location_attendance_project/attendance_system/attendance/utils.py:69-77 | The status is returned as one of the strings 'present', 'late' and 'absent'. It is 'absent' exactly for the absent status. |
| AttendanceUtils.LabelInjective | Desktop/location_attendance_project/attendance_system/attendance/utils.py:69-77 | Two statuses have the same string exactly when they are the same status. |
| AttendanceUtils.LateBoundary | Desktop/location_attendance_project/attendance_system/attendance/utils.py:64-77 | With the default threshold of 15 minutes, a check-in exactly 900 s after the expected time is present and one at 901 s is late. Without an expected time the status is present, and without a check-in it is absent. |
| AttendanceUtils.LateIsMonotone | Desktop/location_attendance_project/attendance_system/attendance/utils.py:72-75 | A check-in that is late stays late if it is made later. |

## Left out

- Rendering, the window, the frame clock and the event queue of the game are
  not modelled. Key presses arrive as `Key` values, and the drawn path is the
  `path` field.
- The QUIT event, which only ends the loop, is not modelled.
- MazeGame.Game.constructor requires an `'S'` and a `'G'` in the maze. Without
  them `find` returns None and the program fails when it first draws or
  unpacks the player.
- MazeSearch.Bfs takes any player cell, as the code does. The search never
  checks the start cell itself, so a walk's first cell is not required to be
  passable.
- AttendanceUtils.CalculateDistance: the haversine trigonometry, the Earth
  radius of 6371000 m and the rounding to two decimals are not modelled.
  Dafny has no trigonometry over reals, so the formula is a function
  parameter. Only the guard in front of it is modelled.
- AttendanceUtils.FormatDistance: the `.0f` and `.2f` number formatting is
  not modelled. The result is the branch taken and the number shown. `Render`
  takes the two formatters as parameters.
- AttendanceUtils.CalculateWorkingHours: the final rounding to two decimals
  is not modelled. The result is the exact quotient, so the additivity in
  `WorkingHoursAdd` holds of the quotient only; rounded hours need not add up.
- Floating-point arithmetic is modelled with exact reals throughout.
- The rest of the repository is not part of this model: the Django views,
  forms, models and templates of the attendance project, its client-side
  JavaScript, the social dashboard script and the transit app.
