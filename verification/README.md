# Glasswave player core in Dafny

Glasswave is a single-page browser audio player. It builds a playlist from a
literal list of "Artist — Title" strings. It keeps a small player state
(current track, loop, shuffle, playing) and drives an `<audio>` element from
transport buttons: play, pause, previous, next, loop and shuffle. A playlist
row can be clicked to jump to its track. The player also shows elapsed and
total time as `M:SS`.

This project models the pure logic inside `index.js`:

- `playlist.dfy` (module `Playlist`) builds the playlist. Each entry is split on
  " — " exactly as `String.prototype.split` does, then the `playlist/<entry>.mp3`
  and `cover/<title>.jpeg` paths are built.
- `navigation.dfy` (module `Navigation`) holds the index arithmetic for
  previous/next with wrap-around, and the shuffle pick. The shuffle pick is a
  rejection loop over a sequence of random draws.
- `player.dfy` (module `Player`) is the state machine. It has the `playerState`
  record, the parts of the `<audio>` element the controls set (source, position,
  paused), and the parts of the page that mirror the state: shown track,
  play/pause buttons, loop and shuffle highlights, and active playlist row. Each
  control and the "ended" notification is a pure transition. `Step` and `Run`
  replay any sequence of events.
- `clock.dfy` (module `Clock`) is `formatTime`, along with a reader for its
  labels that serves as the round-trip partner.
- `text.dfy` (module `Text`) has the string helpers: substring search, decimal
  printing of integers, and `padStart`. `wrappers.dfy` has `Option`, which
  stands for JavaScript's `undefined` and for failed searches.

Two behaviours of the code are worth stating:

- An entry with no separator is not rejected. Its artist is the whole
  entry, its title is `undefined`, and its cover is `cover/undefined.jpeg`,
  because a template literal prints `undefined` that way.
- With eleven tracks, ten presses of "next" from the first track reach the
  last track. The eleventh press returns to the first (`AdvanceCycles`).

## Model

| member | source | states |
|---|---|---|
| Navigation.NextIndex | index.js:125 | "next" without shuffle moves to the following index, or wraps from the last track to 0; the result is always a valid index |
| Navigation.PrevIndex | index.js:128 | "prev" moves to the preceding index, or wraps from 0 to the last track; the result is always a valid index |
| Navigation.PrevUndoesNext | index.js:121-128 | stepping back after stepping forward returns to the starting track |
| Navigation.NextUndoesPrev | index.js:121-128 | stepping forward after stepping back returns to the starting track |
| Navigation.Advance | index.js:121-125 | any number of "next" presses without shuffle stays inside the playlist |
| Navigation.AdvanceWraps | index.js:121-125 | within one lap, k presses from i land on i+k, less the playlist length once the end is passed |
| Navigation.AdvanceCycles | index.js:121-125 | len presses of "next" return to the start, and no smaller positive number of presses does |
| Navigation.AdvanceReaches | index.js:121-125 | every track is reached from any start in fewer than len presses of "next" |
| Navigation.ShufflePickExists | index.js:136-145 | in every state some outcome satisfies the shuffle loop's exit condition, so the loop can stop |
| Navigation.FirstDifferent | index.js:139-142 | the do-while loop returns the first draw that differs from the current track, after draws that all equal it; it returns nothing exactly when every draw so far repeated the current track |
| Navigation.RandomTrack | index.js:136-145 | the shuffle pick is 0 when the playlist has at most one track; otherwise it is an index in range other than the current one |
| Navigation.ShufflePickReachable | index.js:136-145 | every admissible pick is the loop's result for some sequence of in-range draws, so the admissible picks are exactly the loop's possible results |
| Player.ActiveExactlyAtCount | index.js:87-91 | row k is the only active row exactly when row k is active and one row is active in all |
| Player.NoneActive | index.js:87-91 | no row is active exactly when the number of active rows is zero |
| Player.SetPlayPauseButtonState | index.js:68-72 | sets the playing flag and shows exactly one of the play and pause buttons; nothing else changes |
| Player.UpdateActiveListItem | index.js:87-91 | the row at the current track's position becomes active and every other row inactive; the row count is kept |
| Player.UpdateSongInfo | index.js:74-80 | the display shows the current track; nothing else changes |
| Player.LoadCurrent | index.js:131 | assigning the source loads the current track's file from position 0 |
| Player.Init | index.js:57-66 | the initial state is track 0, paused, loop and shuffle off, with the display in agreement |
| Player.PlayTrack | index.js:109-113 | play sets isPlaying, resumes the element where it stands and shows the current track, without changing the track or the flags |
| Player.PauseTrack | index.js:115-118 | pause clears isPlaying and suspends the element, without changing the track or the flags |
| Player.TargetTrack | index.js:120-129 | every direction and admissible draw gives an index inside the playlist |
| Player.SkipTrack | index.js:120-134 | "next" moves to i+1 with wrap-around, or to the random pick when shuffling (never the current track when there are several tracks, 0 when there is one); "prev" moves to i-1 with wrap-around whatever the shuffle flag; the new track is loaded from 0 and played, exactly its row is active, and loop and shuffle are unchanged |
| Player.PlayTrackByIndex | index.js:147-153 | clicking row k makes k the current track and plays it from 0 with only its row active; loop and shuffle are unchanged |
| Player.ToggleLoop | index.js:171-174 | the loop button flips isLooping and its highlight and changes nothing else |
| Player.ToggleShuffle | index.js:177-180 | the shuffle button flips isShuffling and its highlight and changes nothing else |
| Player.Ended | index.js:189-196 | when looping, the track ends by rewinding to 0 and resuming, and state and display stay unchanged; otherwise it is exactly the "next" button |
| Player.ToggleLoopTwice | index.js:171-174 | two presses of the loop button restore the state, and restore the whole player when the display was in agreement |
| Player.ToggleShuffleTwice | index.js:177-180 | two presses of the shuffle button restore the state, and restore the whole player when the display was in agreement |
| Player.SkipPrevUndoesNext | index.js:120-134 | with shuffle off, "prev" after "next" and "next" after "prev" return to the original track |
| Player.Step | index.js:160-223 | every handler that changes the player state keeps the current track in range and keeps the display in agreement with the state |
| Player.Run | index.js:160-223 | replaying the handlers in order keeps the current track in range |
| Player.RunKeepsSync | index.js:160-223 | after any sequence of events the display agrees with the state and exactly one playlist row, the current track's, is active |
| Player.ReachableInSync | index.js:57-66 | from the initial player, every reachable state has exactly one active row, and that row is the current track's |
| Playlist.ParseEntry | index.js:47-55 | the artist is the text before the first separator, or the whole entry when there is none; the title is the text between the first and second separators, or up to the end, and is undefined exactly when the entry has no separator; the file is `playlist/<entry>.mp3` and the cover is `cover/<title>.jpeg` |
| Playlist.SplitJoin | index.js:47-55 | for an entry with exactly one separator, artist + " — " + title gives back the entry, and both paths follow the naming convention |
| Playlist.JoinSplit | index.js:47-55 | joining an artist and a title with the separator and then parsing returns the same artist and title, provided the separator occurs only at the join |
| Playlist.Build | index.js:47-55 | the playlist has one track per raw string, in the same order |
| Playlist.BuildWellFormed | index.js:47-55 | when every raw string has exactly one separator, every track's artist and title join back to its string |
| Playlist.JoinedOnce | index.js:33-48 | an artist and a title without an em dash (the form of every literal entry) joined by the separator contain it exactly once |
| Text.IndexOf | index.js:48 | the search returns the first occurrence at or after the start, or reports that there is none after it |
| Text.NatToString | index.js:246 | an integer prints as decimal digits with no leading zero, except for 0 itself |
| Text.ParseNatToString | index.js:246 | reading the printed digits gives back the integer |
| Text.NatToStringLength | index.js:246 | below ten the printed number has one digit; from ten to ninety-nine it has two |
| Text.PadStart | index.js:246 | padStart keeps the string as its suffix and fills only the front, up to the requested width |
| Text.ParseLeadingZero | index.js:246 | a leading zero does not change the value read from the digits |
| Text.PaddedDigitsRead | index.js:246 | padding a value below 100 to two places with '0' gives two digits that read back as the value |
| Text.Pad2 | index.js:246 | the padded seconds field is exactly two digits and reads back as the seconds value |
| Clock.Rem60 | index.js:245 | JavaScript's `x % 60` on a non-negative time lies in [0, 60) |
| Clock.FloorSplit | index.js:244-245 | flooring x/60 and x % 60 gives the quotient and remainder of the floored seconds |
| Clock.FormatWhole | index.js:241-247 | the label is minutes, a colon and two digits; the minutes read as s div 60 and the seconds as s mod 60; it starts with 0 only when the minutes are 0 |
| Clock.FormatTime | index.js:241-247 | NaN renders as "0:00"; a finite time renders as the label of its floored seconds |
| Clock.ReadLabel | index.js:241-247 | a label of that shape reads back as minutes times sixty plus seconds |
| Clock.ReadFormatWhole | index.js:241-247 | reading a rendered label gives back the whole number of seconds |
| Clock.ReadFormatTime | index.js:241-247 | reading the label of a finite time gives back its floored seconds, so the label loses only the fraction |
| Clock.FormatWholeInjective | index.js:241-247 | two different whole numbers of seconds never share a label |
| Clock.FormatWholeExamples | index.js:241-247 | 0 seconds renders as "0:00" and 65 seconds as "1:05" |
| Clock.FormatTimeExamples | index.js:241-259 | 0 renders as "0:00", both 65 and 65.7 render as "1:05", and NaN renders as "0:00" |

## Left out

- DOM queries and writes are not modelled: `innerHTML` and `textContent`, CSS class writes beyond the active flags, the album-art animation, and the sidebar toggle, outside-click close and mobile-width check (index.js:2-18, 27-31, 104-107, 203-232). `PlayTrackByIndex` therefore does not model the sidebar closing on narrow screens.
- The text of the song name, artist name, album art and background image is not modelled. The display records only which track it shows. `encodeURI` for the background URL is a host library call.
- The row texts written by `populatePlaylist` are not modelled. A row is modelled only by whether it is active, with one row per track.
- The seek slider and the progress value are left out (index.js:183-186, 198-201, 249-251). They are floating-point arithmetic with NaN handling. The duplicated `timeupdate` registration and the `loadedmetadata` handler are wiring around `formatTime`.
- `Math.random` is not modelled, only its range: each draw is taken as an integer in [0, len). The distribution is not modelled.
- The host media element is reduced to source, position and paused. Assigning `src` is taken to rewind to 0 and suspend playback, as the browser's media load algorithm does. Decoding and load failures are not modelled.
- Player.Init: takes the loop and shuffle buttons to start without highlight. Their initial class comes from the page markup, which is not part of this model.
- Player.PlayTrackByIndex: requires a row index inside the playlist. The source never passes any other index, and an out-of-range index would throw a TypeError in the source after changing `currentTrack`.
- Player.SkipTrack: covers only the two directions the buttons pass. Any other string would reload and replay the current track without moving.
- Clock.FormatTime: requires a non-negative finite time or NaN. An infinite duration would print "Infinity:NaN" in the source and is not modelled. Times are exact reals. JavaScript's rounded `seconds / 60` gives the same minutes below 2^53 seconds, but can differ by one beyond that. Minutes of 10^21 or more print in exponent form, which the model does not produce.
- The eleven literal entries of `rawSongs` are not checked one by one. `JoinedOnce` states the property for the form they all have: an artist and a title without an em dash, joined by the separator.
- JavaScript strings are UTF-16 code units; the model's strings are Unicode
  scalar values. The split gives the same pieces because the separator (its
  dash is U+2014) lies in the Basic Multilingual Plane. Lone surrogates cannot
  be represented.
