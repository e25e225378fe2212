/**
 * What the pipeline learns from a media path without opening the file: the
 * base name (`path.basename`), the title `extractMediaInfo` makes of it, the
 * fixed duration it reports, and the extension test `batchProcess` uses to
 * pick media files out of a directory listing.
 */
module Media {
  import opened Text
  import opened Seqs
  import Slug

  // ---------------------------------------------------------------------------
  // `path.basename` (POSIX)
  // ---------------------------------------------------------------------------

  predicate AllSlashes(s: string) {
    forall k | 0 <= k < |s| :: s[k] == '/'
  }

  /** The path without the `/` separators it ends with. */
  function DropTrailingSlashes(path: string): (r: string)
    ensures r <= path && AllSlashes(path[|r|..])
    ensures |r| > 0 ==> r[|r| - 1] != '/'
  {
    if |path| > 0 && path[|path| - 1] == '/' then
      assert path[..|path| - 1] <= path;
      DropTrailingSlashes(path[..|path| - 1])
    else path
  }

  /** The last `/`-free stretch of `s`. */
  function AfterLastSlash(s: string): (name: string)
    ensures |name| <= |s| && name == s[|s| - |name|..]
    ensures NoneIn(name, {'/'})
    ensures |name| < |s| ==> s[|s| - |name| - 1] == '/'
  {
    if |s| == 0 || s[|s| - 1] == '/' then []
    else
      var init := AfterLastSlash(s[..|s| - 1]);
      SuffixOfInit(s, |init|);
      init + [s[|s| - 1]]
  }

  /** A suffix of all but the last character, extended by that character, is
      a suffix of the whole. */
  lemma SuffixOfInit(s: string, n: nat)
    requires n < |s|
    ensures s[..|s| - 1][|s| - 1 - n..] + [s[|s| - 1]] == s[|s| - 1 - n..]
    ensures n < |s| - 1 ==> s[..|s| - 1][|s| - 1 - n - 1] == s[|s| - n - 2]
  {
  }

  /** `path.basename(p)`: trailing separators are ignored, then whatever
      follows the last separator is the name. The result never holds a `/`, it
      is the final stretch of the path once the trailing separators are gone,
      and it is empty only when that stretch is. */
  function BaseName(path: string): (name: string)
    ensures NoneIn(name, {'/'})
    ensures var trimmed := DropTrailingSlashes(path);
      && |name| <= |trimmed| && name == trimmed[|trimmed| - |name|..]
      && (|name| < |trimmed| ==> trimmed[|trimmed| - |name| - 1] == '/')
    ensures name == [] <==> AllSlashes(path)
  {
    var trimmed := DropTrailingSlashes(path);
    var name := AfterLastSlash(trimmed);
    name
  }

  /** A name without `/` is its own base name. */
  lemma {:induction false} BaseNameOfName(name: string)
    requires NoneIn(name, {'/'})
    ensures BaseName(name) == name
  {
    if |name| > 0 {
      assert name[..|name| - 1] + [name[|name| - 1]] == name;
      BaseNameOfName(name[..|name| - 1]);
    }
  }

  /** The base name of `dir/name` is `name`, whatever the directory: a file
      found in a listing keeps its name once the path is assembled. */
  lemma BaseNameOfChild(dir: string, name: string)
    requires name != [] && NoneIn(name, {'/'})
    ensures BaseName(dir + "/" + name) == name
  {
    var path := dir + "/" + name;
    assert DropTrailingSlashes(path) == path;
    AfterLastSlashOfChild(dir + "/", name);
  }

  lemma {:induction false} AfterLastSlashOfChild(prefix: string, name: string)
    requires |prefix| > 0 && prefix[|prefix| - 1] == '/' && NoneIn(name, {'/'})
    ensures AfterLastSlash(prefix + name) == name
  {
    if |name| == 0 {
      assert prefix + name == prefix;
    } else {
      var init := name[..|name| - 1];
      AfterLastSlashOfChild(prefix, init);
      assert (prefix + name)[..|prefix + name| - 1] == prefix + init;
      assert init + [name[|name| - 1]] == name;
    }
  }

  /** Trailing separators do not change the base name. */
  lemma BaseNameIgnoresTrailingSlash(path: string)
    ensures BaseName(path + "/") == BaseName(path)
  {
    assert (path + "/")[..|path + "/"| - 1] == path;
  }

  // ---------------------------------------------------------------------------
  // `extractMediaInfo`
  // ---------------------------------------------------------------------------

  /** `.replace(/[-_]/g, ' ')` on one character. */
  function Unseparate(c: char): char {
    if c == '-' || c == '_' then ' ' else c
  }

  /** `.replace(/[-_]/g, ' ')`: every `-` and `_` becomes a blank, every
      other character stays where it is. */
  function Unseparated(s: string): (r: string)
    ensures |r| == |s|
    ensures forall k | 0 <= k < |r| :: r[k] != '-' && r[k] != '_'
    ensures forall k | 0 <= k < |r| :: r[k] == s[k] || (r[k] == ' ' && (s[k] == '-' || s[k] == '_'))
  {
    seq(|s|, k requires 0 <= k < |s| => Unseparate(s[k]))
  }

  /** Turning the separators into blanks twice changes nothing more. */
  lemma UnseparatedIdempotent(s: string)
    ensures Unseparated(Unseparated(s)) == Unseparated(s)
  {
  }

  /** The display title of a file name: the name without its extension, with
      every `-` and `_` read as a blank. */
  function Title(filename: string): (title: string)
    ensures |title| == |Slug.StripExtension(filename)| <= |filename|
    ensures forall k | 0 <= k < |title| :: title[k] != '-' && title[k] != '_'
    ensures forall k | 0 <= k < |title| ::
      title[k] == filename[k] || (title[k] == ' ' && (filename[k] == '-' || filename[k] == '_'))
  {
    Unseparated(Slug.StripExtension(filename))
  }

  /** The title does not depend on which extension the file carries: it is
      the name in front of the extension with its separators read as blanks. */
  lemma TitleIgnoresExtension(name: string, ext: string)
    requires Slug.ExtensionText(ext)
    ensures Title(name + "." + ext) == Unseparated(name)
  {
    Slug.StripAppendedExtension(name, ext);
  }

  /** Without a `.` nothing is cut off the title. */
  lemma TitleWithoutDot(name: string)
    requires forall k | 0 <= k < |name| :: name[k] != '.'
    ensures Title(name) == Unseparated(name)
  {
    Slug.StripWithoutDot(name);
  }

  /** The duration `extractMediaInfo` reports for every file: no media
      probing happens. */
  const PlaceholderDuration: string := "45:30"

  datatype MediaInfo = MediaInfo(duration: string, title: string)

  /** `extractMediaInfo(filePath)`: the duration is the placeholder whatever
      the file holds; the title is read off the last path component alone, one
      character per character of it, with no `/`, `-` or `_` left. */
  function ExtractMediaInfo(filePath: string): (info: MediaInfo)
    ensures info.duration == PlaceholderDuration
    ensures NoneIn(info.title, {'/', '-', '_'})
    ensures var name := BaseName(filePath);
      && |info.title| <= |name|
      && forall k | 0 <= k < |info.title| ::
           info.title[k] == name[k] || (info.title[k] == ' ' && (name[k] == '-' || name[k] == '_'))
  {
    var name := BaseName(filePath);
    TitleOfName(name);
    MediaInfo(PlaceholderDuration, Title(name))
  }

  /** The title of a name without `/` has none of `/`, `-` and `_`. */
  lemma TitleOfName(name: string)
    requires NoneIn(name, {'/'})
    ensures NoneIn(Title(name), {'/', '-', '_'})
  {
    var title := Title(name);
    forall k | 0 <= k < |title| ensures title[k] !in {'/', '-', '_'} {
      assert title[k] == name[k] || title[k] == ' ';
    }
  }

  /** A file `name.ext` found in directory `dir`: its title is `name` with
      the separators read as blanks, whatever the directory and the
      extension. */
  lemma MediaInfoOfListedFile(dir: string, name: string, ext: string)
    requires NoneIn(name, {'/'}) && Slug.ExtensionText(ext)
    ensures ExtractMediaInfo(dir + "/" + (name + "." + ext)) == MediaInfo(PlaceholderDuration, Unseparated(name))
  {
    var file := name + "." + ext;
    assert NoneIn(file, {'/'}) by {
      forall k | 0 <= k < |file| ensures file[k] != '/' {
        if k > |name| {
          assert file[k] == ext[k - |name| - 1];
        }
      }
    }
    BaseNameOfChild(dir, file);
    TitleIgnoresExtension(name, ext);
  }

  // ---------------------------------------------------------------------------
  // `/\.(mp3|wav|m4a|mp4|mov|avi)$/i`
  // ---------------------------------------------------------------------------

  const MediaExtensions: set<string> := {"mp3", "wav", "m4a", "mp4", "mov", "avi"}

  /** `name` ends in `.` and then `ext`, letters compared without regard to
      ASCII case (the `i` flag). */
  predicate EndsWithExtension(name: string, ext: string) {
    |name| > |ext| && Lower(name[|name| - |ext| - 1..]) == "." + ext
  }

  /** The listing filter of `batchProcess`. */
  predicate IsMediaFile(name: string) {
    exists ext | ext in MediaExtensions :: EndsWithExtension(name, ext)
  }

  /** The media files of a directory listing, in listing order. */
  function MediaFiles(listing: seq<string>): (files: seq<string>)
    ensures forall k | 0 <= k < |files| :: IsMediaFile(files[k]) && files[k] in listing
  {
    Filter(listing, IsMediaFile)
  }

  /** Exactly the media names are selected, each as often as it is listed, in
      listing order. */
  lemma MediaFilesSelection(listing: seq<string>)
    ensures IsSubsequence(MediaFiles(listing), listing)
    ensures forall name :: name in MediaFiles(listing) <==> name in listing && IsMediaFile(name)
    ensures forall name ::
      multiset(MediaFiles(listing))[name] == if IsMediaFile(name) then multiset(listing)[name] else 0
  {
    FilterExact(listing, IsMediaFile);
    forall name | name in listing && IsMediaFile(name) ensures name in MediaFiles(listing) {
      assert multiset(listing)[name] > 0;
    }
  }

  /** A media name is a stem, a `.` and one of the six extensions in some
      mix of cases. */
  lemma MediaFileSplits(name: string) returns (k: nat)
    requires IsMediaFile(name)
    ensures k < |name| && name[k] == '.' && Lower(name[k + 1..]) in MediaExtensions
  {
    var ext :| ext in MediaExtensions && EndsWithExtension(name, ext);
    k := |name| - |ext| - 1;
    var tail := name[k..];
    assert Lower(tail)[0] == LowerChar(tail[0]) == '.';
    assert Lower(name[k + 1..]) == Lower(tail)[1..];
  }

  /** Some `.` is followed by one of the six extensions in some mix of cases. */
  predicate DotExtension(name: string, k: nat) {
    k < |name| && name[k] == '.' && Lower(name[k + 1..]) in MediaExtensions
  }

  /** Conversely, a `.` followed by one of the six extensions in any mix of
      cases makes a media name. */
  lemma ExtensionMakesMediaFile(name: string, k: nat)
    requires DotExtension(name, k)
    ensures IsMediaFile(name)
  {
    var ext := Lower(name[k + 1..]);
    assert name[k..] == [name[k]] + name[k + 1..];
    assert Lower(name[k..]) == "." + ext;
    assert EndsWithExtension(name, ext);
  }

  /** Both directions together. */
  lemma MediaFileIff(name: string)
    ensures IsMediaFile(name) <==> exists k: nat :: DotExtension(name, k)
  {
    if IsMediaFile(name) {
      var k := MediaFileSplits(name);
      assert DotExtension(name, k);
    } else {
      forall k: nat ensures !DotExtension(name, k) {
        if DotExtension(name, k) {
          ExtensionMakesMediaFile(name, k);
        }
      }
    }
  }
}
