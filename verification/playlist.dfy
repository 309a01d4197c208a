/**
 Construction of the playlist from the literal "Artist — Title" strings:
 each string is split on the separator " — " (space, em dash, space) the
 way `String.prototype.split` does, the first two pieces become artist and
 title, and the audio and cover paths are built from the naming convention
 `playlist/<entry>.mp3` and `cover/<title>.jpeg`.
 */
module Playlist {
  import opened Wrappers
  import opened Text

  /** The separator between artist and title: space, U+2014 EM DASH, space. */
  const Separator: string := " \U{2014} "

  /** What a template literal prints for JavaScript's `undefined`. */
  const UndefinedText: string := "undefined"

  /**
   One playlist entry. `title` is the source's `track` field; it is None
   (JavaScript's `undefined`) when the entry has no separator.
   */
  datatype Track = Track(file: string, cover: string, artist: string, title: Option<string>)

  /** The separator occurs in `s` at position `i`. */
  predicate SeparatorAt(s: string, i: nat) {
    OccursAt(s, Separator, i)
  }

  /** The separator occurs in `s` exactly once, at position `p`. */
  predicate OnlySeparatorAt(s: string, p: nat) {
    SeparatorAt(s, p) && forall i :: 0 <= i < |s| && SeparatorAt(s, i) ==> i == p
  }

  /** The audio resource of an entry. */
  function AudioPath(name: string): string {
    "playlist/" + name + ".mp3"
  }

  /** The cover image of a title; an undefined title is printed as "undefined". */
  function CoverPath(title: Option<string>): string {
    "cover/" + title.GetOr(UndefinedText) + ".jpeg"
  }

  /**
   The mapping callback of `rawSongs.map`: `[artist, track] = name.split(" — ")`.
   The artist is the text before the first separator (the whole name when there
   is none); the title is the text between the first and the second separator,
   or up to the end when there is no second one.
   */
  function ParseEntry(name: string): (t: Track)
    ensures t.file == AudioPath(name) && t.cover == CoverPath(t.title)
    ensures t.title.None? <==> forall i :: !SeparatorAt(name, i)
    ensures t.title.None? ==> t.artist == name
    ensures t.title.Some? ==> SeparatorAt(name, |t.artist|) && name[..|t.artist|] == t.artist
                              && forall i :: 0 <= i < |t.artist| ==> !SeparatorAt(name, i)
    ensures t.title.Some? ==> var start := |t.artist| + |Separator|;
                              start + |t.title.value| <= |name| && name[start..start + |t.title.value|] == t.title.value
    ensures t.title.Some? ==> var start := |t.artist| + |Separator|;
                              var stop := start + |t.title.value|;
                              && (stop == |name| || SeparatorAt(name, stop))
                              && forall i :: start <= i < stop ==> !SeparatorAt(name, i)
  {
    match IndexOf(name, Separator, 0)
    case None => Track(AudioPath(name), CoverPath(None), name, None)
    case Some(p) =>
      var start := p + |Separator|;
      var title := match IndexOf(name, Separator, start)
        case None => name[start..]
        case Some(q) => name[start..q];
      assert SeparatorAt(name, p);
      Track(AudioPath(name), CoverPath(Some(title)), name[..p], Some(title))
  }

  /**
   For an entry with exactly one separator the pieces join back to the entry,
   and the paths follow the naming convention.
   */
  lemma SplitJoin(name: string, p: nat)
    requires OnlySeparatorAt(name, p)
    ensures var t := ParseEntry(name);
            && t.title.Some?
            && t.artist + Separator + t.title.value == name
            && t.file == "playlist/" + name + ".mp3"
            && t.cover == "cover/" + t.title.value + ".jpeg"
  {
    var t := ParseEntry(name);
    assert |t.artist| == p;
    var start := p + |Separator|;
    var next := IndexOf(name, Separator, start);
    if next.Some? {
      assert SeparatorAt(name, next.value);
    }
    assert t.title.value == name[start..];
    assert name == name[..p] + name[p..start] + name[start..];
  }

  /**
   Joining an artist and a title with the separator and parsing the result
   gives them back, provided the separator occurs nowhere else in the entry.
   */
  lemma JoinSplit(artist: string, title: string)
    requires OnlySeparatorAt(artist + Separator + title, |artist|)
    ensures ParseEntry(artist + Separator + title)
            == Track(AudioPath(artist + Separator + title), "cover/" + title + ".jpeg", artist, Some(title))
  {
    var name := artist + Separator + title;
    SplitJoin(name, |artist|);
    var t := ParseEntry(name);
    assert |t.artist| == |artist|;
    assert t.artist == name[..|artist|] == artist;
    assert t.title.value == name[|artist| + |Separator|..] == title;
  }

  /** `rawSongs.map(...)`: one track per raw string, in the same order. */
  function Build(raw: seq<string>): (tracks: seq<Track>)
    ensures |tracks| == |raw|
    ensures forall i :: 0 <= i < |raw| ==> tracks[i] == ParseEntry(raw[i])
  {
    seq(|raw|, i requires 0 <= i < |raw| => ParseEntry(raw[i]))
  }

  /**
   When every raw string has exactly one separator, every track's artist and
   title join back to its raw string and its cover is named after its title.
   */
  lemma BuildWellFormed(raw: seq<string>)
    requires forall i :: 0 <= i < |raw| ==> exists p :: OnlySeparatorAt(raw[i], p)
    ensures forall i :: 0 <= i < |raw| ==>
              var t := Build(raw)[i];
              && t.title.Some?
              && t.artist + Separator + t.title.value == raw[i]
              && t.file == "playlist/" + raw[i] + ".mp3"
              && t.cover == "cover/" + t.title.value + ".jpeg"
  {
    forall i | 0 <= i < |raw|
      ensures var t := Build(raw)[i];
              && t.title.Some?
              && t.artist + Separator + t.title.value == raw[i]
              && t.file == "playlist/" + raw[i] + ".mp3"
              && t.cover == "cover/" + t.title.value + ".jpeg"
    {
      var p :| OnlySeparatorAt(raw[i], p);
      SplitJoin(raw[i], p);
    }
  }

  /** `s` does not contain the separator's middle character, the em dash. */
  predicate DashFree(s: string) {
    forall i :: 0 <= i < |s| ==> s[i] != Separator[1]
  }

  /** Joining two dash-free strings with the separator leaves exactly one separator. */
  lemma JoinedOnce(artist: string, title: string)
    requires DashFree(artist) && DashFree(title)
    ensures OnlySeparatorAt(artist + Separator + title, |artist|)
  {
    var s := artist + Separator + title;
    assert s[|artist|..|artist| + |Separator|] == Separator;
    forall i | 0 <= i < |s| && SeparatorAt(s, i)
      ensures i == |artist|
    {
      assert s[i + 1] == s[i..i + |Separator|][1] == Separator[1];
    }
  }
}
