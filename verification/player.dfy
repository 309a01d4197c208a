/**
 The player's state machine: the `playerState` record, the part of the
 `<audio>` element the controls drive, and the part of the page that mirrors
 the state (play/pause buttons, loop and shuffle highlights, the shown track
 and the highlighted playlist row). Each control is a pure transition over a
 non-empty playlist; the random draw of the shuffle pick arrives as a
 parameter constrained by the rejection loop's postcondition.
 */
module Player {
  import opened Wrappers
  import Playlist
  import Navigation

  datatype Direction = Next | Prev

  /** The source's `playerState` record. */
  datatype PlayerState = PlayerState(isLooping: bool, isShuffling: bool, currentTrack: nat, isPlaying: bool)

  /** The loaded resource, the playback position in seconds and whether playback is suspended. */
  datatype Audio = Audio(src: string, position: real, paused: bool)

  /**
   The display: which track's title, artist and cover are shown, which of the
   play and pause buttons is visible, whether the loop and shuffle buttons are
   highlighted, and which playlist rows carry the "active" class.
   */
  datatype View = View(shownTrack: nat, playButtonShown: bool, pauseButtonShown: bool,
                       loopActive: bool, shuffleActive: bool, activeRows: seq<bool>)

  datatype Player = Player(state: PlayerState, audio: Audio, view: View)

  /** Row `k` is the one and only active row. */
  predicate ActiveExactlyAt(rows: seq<bool>, k: nat) {
    k < |rows| && forall i :: 0 <= i < |rows| ==> (rows[i] <==> i == k)
  }

  /** The number of active rows. */
  function CountActive(rows: seq<bool>): nat {
    if |rows| == 0 then 0 else (if rows[0] then 1 else 0) + CountActive(rows[1..])
  }

  /** A row that is the only active one makes the count of active rows one, and conversely. */
  lemma {:induction false} ActiveExactlyAtCount(rows: seq<bool>, k: nat)
    requires k < |rows|
    ensures ActiveExactlyAt(rows, k) <==> rows[k] && CountActive(rows) == 1
    decreases |rows|
  {
    if k == 0 {
      NoneActive(rows[1..]);
    } else {
      ActiveExactlyAtCount(rows[1..], k - 1);
      if rows[0] {
        NoneActive(rows[1..]);
      }
      assert ActiveExactlyAt(rows, k) <==> !rows[0] && ActiveExactlyAt(rows[1..], k - 1) by {
        if ActiveExactlyAt(rows, k) {
          forall i | 0 <= i < |rows[1..]|
            ensures rows[1..][i] <==> i == k - 1
          {
            assert rows[1..][i] == rows[i + 1];
          }
        }
        if !rows[0] && ActiveExactlyAt(rows[1..], k - 1) {
          forall i | 0 <= i < |rows|
            ensures rows[i] <==> i == k
          {
            if i > 0 {
              assert rows[i] == rows[1..][i - 1];
            }
          }
        }
      }
    }
  }

  /** No row is active exactly when the count of active rows is zero. */
  lemma {:induction false} NoneActive(rows: seq<bool>)
    ensures CountActive(rows) == 0 <==> forall i :: 0 <= i < |rows| ==> !rows[i]
    decreases |rows|
  {
    if |rows| > 0 {
      NoneActive(rows[1..]);
      assert forall i :: 0 < i < |rows| ==> rows[i] == rows[1..][i - 1];
    }
  }

  /** A state the controls can be in: the current track is a track of the playlist, which has one row per track. */
  predicate Valid(tracks: seq<Playlist.Track>, p: Player) {
    && |tracks| > 0
    && p.state.currentTrack < |tracks|
    && |p.view.activeRows| == |tracks|
  }

  /** The display and the loaded resource agree with the player state. */
  predicate InSync(tracks: seq<Playlist.Track>, p: Player) {
    && Valid(tracks, p)
    && ActiveExactlyAt(p.view.activeRows, p.state.currentTrack)
    && p.view.shownTrack == p.state.currentTrack
    && p.view.playButtonShown == !p.state.isPlaying
    && p.view.pauseButtonShown == p.state.isPlaying
    && p.view.loopActive == p.state.isLooping
    && p.view.shuffleActive == p.state.isShuffling
    && p.audio.src == tracks[p.state.currentTrack].file
  }

  /** `setPlayPauseButtonState`: records the playing flag and shows exactly one of the two buttons. */
  function SetPlayPauseButtonState(p: Player, isPlaying: bool): (r: Player)
    ensures r.state.isPlaying == isPlaying
    ensures r.view.pauseButtonShown == isPlaying && r.view.playButtonShown != r.view.pauseButtonShown
    ensures r.state.(isPlaying := p.state.isPlaying) == p.state && r.audio == p.audio
    ensures r.view.(playButtonShown := p.view.playButtonShown, pauseButtonShown := p.view.pauseButtonShown) == p.view
  {
    p.(state := p.state.(isPlaying := isPlaying),
       view := p.view.(playButtonShown := !isPlaying, pauseButtonShown := isPlaying))
  }

  /** `updateActiveListItem`: the row at the current track's position, and no other, becomes active. */
  function UpdateActiveListItem(p: Player): (r: Player)
    ensures |r.view.activeRows| == |p.view.activeRows|
    ensures forall i :: 0 <= i < |r.view.activeRows| ==> (r.view.activeRows[i] <==> i == p.state.currentTrack)
    ensures r.state == p.state && r.audio == p.audio && r.view.(activeRows := p.view.activeRows) == p.view
  {
    var rows := p.view.activeRows;
    p.(view := p.view.(activeRows := seq(|rows|, i => i == p.state.currentTrack)))
  }

  /** `updateSongInfo(currentTrack)`: the display shows the current track. */
  function UpdateSongInfo(p: Player): (r: Player)
    ensures r.view.shownTrack == r.state.currentTrack
    ensures r.state == p.state && r.audio == p.audio && r.view.(shownTrack := p.view.shownTrack) == p.view
  {
    p.(view := p.view.(shownTrack := p.state.currentTrack))
  }

  /**
   Assigning `audio.src`: the element loads the current track's file, which
   (by the host's media load rules) rewinds to position 0 and suspends playback.
   */
  function LoadCurrent(tracks: seq<Playlist.Track>, p: Player): (r: Player)
    requires Valid(tracks, p)
    ensures r.audio.src == tracks[p.state.currentTrack].file && r.audio.position == 0.0
    ensures r.state == p.state && r.view == p.view
  {
    p.(audio := Audio(tracks[p.state.currentTrack].file, 0.0, true))
  }

  /** `initializePlayer`: first track loaded, paused, nothing toggled, one row per track with the first active. */
  function Init(tracks: seq<Playlist.Track>): (r: Player)
    requires |tracks| > 0
    ensures InSync(tracks, r)
    ensures r.state == PlayerState(false, false, 0, false)
    ensures r.audio == Audio(tracks[0].file, 0.0, true)
  {
    var blank := Player(PlayerState(false, false, 0, false), Audio("", 0.0, true),
                        View(0, false, false, false, false, seq(|tracks|, _ => false)));
    UpdateActiveListItem(UpdateSongInfo(LoadCurrent(tracks, SetPlayPauseButtonState(blank, false))))
  }

  /** `playTrack`: resume the loaded track where it stands and show it as playing. */
  function PlayTrack(tracks: seq<Playlist.Track>, p: Player): (r: Player)
    requires Valid(tracks, p)
    ensures Valid(tracks, r) && (InSync(tracks, p) ==> InSync(tracks, r))
    ensures r.state == p.state.(isPlaying := true)
    ensures r.audio == p.audio.(paused := false)
    ensures r.view.shownTrack == r.state.currentTrack && r.view.pauseButtonShown && !r.view.playButtonShown
    ensures r.view.(shownTrack := p.view.shownTrack, playButtonShown := p.view.playButtonShown,
                    pauseButtonShown := p.view.pauseButtonShown) == p.view
  {
    SetPlayPauseButtonState(UpdateSongInfo(p.(audio := p.audio.(paused := false))), true)
  }

  /** `pauseTrack`: suspend playback and show it as paused. */
  function PauseTrack(tracks: seq<Playlist.Track>, p: Player): (r: Player)
    requires Valid(tracks, p)
    ensures Valid(tracks, r) && (InSync(tracks, p) ==> InSync(tracks, r))
    ensures r.state == p.state.(isPlaying := false)
    ensures r.audio == p.audio.(paused := true)
    ensures r.view.playButtonShown && !r.view.pauseButtonShown
    ensures r.view.(playButtonShown := p.view.playButtonShown, pauseButtonShown := p.view.pauseButtonShown) == p.view
  {
    SetPlayPauseButtonState(p.(audio := p.audio.(paused := true)), false)
  }

  /** The admissible outcomes of the random draw for a step in direction `dir`. */
  predicate PickAllowed(tracks: seq<Playlist.Track>, p: Player, dir: Direction, pick: nat) {
    dir == Next && p.state.isShuffling ==> Navigation.IsShufflePick(|tracks|, p.state.currentTrack, pick)
  }

  /** The track a step in direction `dir` moves to. */
  function TargetTrack(tracks: seq<Playlist.Track>, p: Player, dir: Direction, pick: nat): (k: nat)
    requires Valid(tracks, p) && PickAllowed(tracks, p, dir, pick)
    ensures k < |tracks|
  {
    match dir
    case Next => if p.state.isShuffling then pick else Navigation.NextIndex(|tracks|, p.state.currentTrack)
    case Prev => Navigation.PrevIndex(|tracks|, p.state.currentTrack)
  }

  /**
   `skipTrack(direction)`: move to the following track (a random other one
   when shuffling) or to the preceding one (shuffle or not), load it, play it
   and highlight its row. `pick` is the result of `getRandomTrack`.
   */
  function SkipTrack(tracks: seq<Playlist.Track>, p: Player, dir: Direction, pick: nat): (r: Player)
    requires Valid(tracks, p) && PickAllowed(tracks, p, dir, pick)
    ensures Valid(tracks, r) && (InSync(tracks, p) ==> InSync(tracks, r))
    ensures var n, i := |tracks|, p.state.currentTrack;
            && (dir == Next && !p.state.isShuffling ==> r.state.currentTrack == (if i + 1 < n then i + 1 else 0))
            && (dir == Next && p.state.isShuffling ==>
                  (r.state.currentTrack == pick && (n > 1 ==> pick != i) && (n == 1 ==> pick == 0)))
            && (dir == Prev ==> r.state.currentTrack == (if i > 0 then i - 1 else n - 1))
    ensures r.state == p.state.(currentTrack := r.state.currentTrack, isPlaying := true)
    ensures r.audio == Audio(tracks[r.state.currentTrack].file, 0.0, false)
    ensures ActiveExactlyAt(r.view.activeRows, r.state.currentTrack) && r.view.shownTrack == r.state.currentTrack
  {
    var moved := p.(state := p.state.(currentTrack := TargetTrack(tracks, p, dir, pick)));
    UpdateActiveListItem(PlayTrack(tracks, LoadCurrent(tracks, moved)))
  }

  /**
   `playTrackByIndex(index)`: jump to the clicked row's track, play it and
   highlight its row; the loop and shuffle flags are untouched.
   */
  function PlayTrackByIndex(tracks: seq<Playlist.Track>, p: Player, index: nat): (r: Player)
    requires Valid(tracks, p) && index < |tracks|
    ensures Valid(tracks, r) && (InSync(tracks, p) ==> InSync(tracks, r))
    ensures r.state == PlayerState(p.state.isLooping, p.state.isShuffling, index, true)
    ensures r.audio == Audio(tracks[index].file, 0.0, false)
    ensures ActiveExactlyAt(r.view.activeRows, index) && r.view.shownTrack == index
  {
    var moved := p.(state := p.state.(currentTrack := index));
    UpdateActiveListItem(PlayTrack(tracks, UpdateSongInfo(LoadCurrent(tracks, moved))))
  }

  /** The loop button: flip `isLooping` and its highlight, nothing else. */
  function ToggleLoop(p: Player): (r: Player)
    ensures r.state.isLooping == !p.state.isLooping && r.view.loopActive == r.state.isLooping
    ensures r.state.(isLooping := p.state.isLooping) == p.state
    ensures r.audio == p.audio && r.view.(loopActive := p.view.loopActive) == p.view
  {
    var on := !p.state.isLooping;
    p.(state := p.state.(isLooping := on), view := p.view.(loopActive := on))
  }

  /** The shuffle button: flip `isShuffling` and its highlight, nothing else. */
  function ToggleShuffle(p: Player): (r: Player)
    ensures r.state.isShuffling == !p.state.isShuffling && r.view.shuffleActive == r.state.isShuffling
    ensures r.state.(isShuffling := p.state.isShuffling) == p.state
    ensures r.audio == p.audio && r.view.(shuffleActive := p.view.shuffleActive) == p.view
  {
    var on := !p.state.isShuffling;
    p.(state := p.state.(isShuffling := on), view := p.view.(shuffleActive := on))
  }

  /**
   The media element's "ended" notification: when looping, rewind the same
   track to 0 and resume it without touching the player state or the display;
   otherwise behave as the "next" button.
   */
  function Ended(tracks: seq<Playlist.Track>, p: Player, pick: nat): (r: Player)
    requires Valid(tracks, p) && PickAllowed(tracks, p, Next, pick)
    ensures Valid(tracks, r) && (InSync(tracks, p) ==> InSync(tracks, r))
    ensures p.state.isLooping ==> r.state == p.state && r.view == p.view
                                  && r.audio == p.audio.(position := 0.0, paused := false)
    ensures !p.state.isLooping ==> r == SkipTrack(tracks, p, Next, pick)
    ensures !p.state.isLooping && !p.state.isShuffling ==>
              r.state.currentTrack == Navigation.NextIndex(|tracks|, p.state.currentTrack)
  {
    if p.state.isLooping then p.(audio := p.audio.(position := 0.0, paused := false))
    else SkipTrack(tracks, p, Next, pick)
  }

  /** Pressing the loop button twice restores the player. */
  lemma ToggleLoopTwice(tracks: seq<Playlist.Track>, p: Player)
    ensures ToggleLoop(ToggleLoop(p)).state == p.state
    ensures InSync(tracks, p) ==> ToggleLoop(ToggleLoop(p)) == p
  {
  }

  /** Pressing the shuffle button twice restores the player. */
  lemma ToggleShuffleTwice(tracks: seq<Playlist.Track>, p: Player)
    ensures ToggleShuffle(ToggleShuffle(p)).state == p.state
    ensures InSync(tracks, p) ==> ToggleShuffle(ToggleShuffle(p)) == p
  {
  }

  /** With shuffle off, "prev" undoes "next" and "next" undoes "prev" as far as the current track goes. */
  lemma SkipPrevUndoesNext(tracks: seq<Playlist.Track>, p: Player, pick: nat)
    requires Valid(tracks, p) && !p.state.isShuffling
    ensures var q := SkipTrack(tracks, p, Next, pick);
            SkipTrack(tracks, q, Prev, pick).state.currentTrack == p.state.currentTrack
    ensures var q := SkipTrack(tracks, p, Prev, pick);
            SkipTrack(tracks, q, Next, pick).state.currentTrack == p.state.currentTrack
  {
  }

  /** A notification from the page or the media element, with the random draw where one is made. */
  datatype Event =
    | PlayClicked
    | PauseClicked
    | SkipClicked(dir: Direction, pick: nat)
    | RowClicked(index: nat)
    | LoopClicked
    | ShuffleClicked
    | TrackEnded(pick: nat)

  /** The event can happen in this state: a clicked row exists and a random draw obeys the rejection loop. */
  predicate Admissible(tracks: seq<Playlist.Track>, p: Player, e: Event) {
    match e
    case SkipClicked(dir, pick) => PickAllowed(tracks, p, dir, pick)
    case RowClicked(index) => index < |tracks|
    case TrackEnded(pick) => PickAllowed(tracks, p, Next, pick)
    case _ => true
  }

  /** The handler registered for the event. */
  function Step(tracks: seq<Playlist.Track>, p: Player, e: Event): (r: Player)
    requires Valid(tracks, p) && Admissible(tracks, p, e)
    ensures Valid(tracks, r) && (InSync(tracks, p) ==> InSync(tracks, r))
  {
    match e
    case PlayClicked => PlayTrack(tracks, p)
    case PauseClicked => PauseTrack(tracks, p)
    case SkipClicked(dir, pick) => SkipTrack(tracks, p, dir, pick)
    case RowClicked(index) => PlayTrackByIndex(tracks, p, index)
    case LoopClicked => ToggleLoop(p)
    case ShuffleClicked => ToggleShuffle(p)
    case TrackEnded(pick) => Ended(tracks, p, pick)
  }

  /** The event loop: the state after the handlers of the events in order, or None when one of them cannot happen where it arrives. */
  function Run(tracks: seq<Playlist.Track>, p: Player, events: seq<Event>): (r: Option<Player>)
    requires Valid(tracks, p)
    ensures r.Some? ==> Valid(tracks, r.value)
    decreases |events|
  {
    if |events| == 0 then Some(p)
    else if !Admissible(tracks, p, events[0]) then None
    else Run(tracks, Step(tracks, p, events[0]), events[1..])
  }

  /**
   Every state reached from the initial one shows exactly one active row, the
   current track's, and the rest of the display agrees with the state too.
   */
  lemma {:induction false} RunKeepsSync(tracks: seq<Playlist.Track>, p: Player, events: seq<Event>)
    requires InSync(tracks, p)
    ensures Run(tracks, p, events).Some? ==>
              var q := Run(tracks, p, events).value;
              InSync(tracks, q) && ActiveExactlyAt(q.view.activeRows, q.state.currentTrack)
              && CountActive(q.view.activeRows) == 1
    decreases |events|
  {
    if |events| > 0 && Admissible(tracks, p, events[0]) {
      RunKeepsSync(tracks, Step(tracks, p, events[0]), events[1..]);
    } else if |events| == 0 {
      ActiveExactlyAtCount(p.view.activeRows, p.state.currentTrack);
    }
  }

  /** From the initial state, any sequence of events keeps exactly one playlist row active. */
  lemma ReachableInSync(tracks: seq<Playlist.Track>, events: seq<Event>)
    requires |tracks| > 0
    ensures Run(tracks, Init(tracks), events).Some? ==>
              var q := Run(tracks, Init(tracks), events).value;
              InSync(tracks, q) && CountActive(q.view.activeRows) == 1
  {
    RunKeepsSync(tracks, Init(tracks), events);
  }
}
