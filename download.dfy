/**
 * The string work of `downloadFile`: the link target drops a leading "./"
 * in favour of "/", and the suggested file name is the last '/'-separated
 * segment of that target.
 */
module Download {

  /** A download the page asks the browser for: the link target and the file name it suggests. */
  datatype Request = Request(href: string, name: string)

  predicate StartsWithDotSlash(s: string)
  {
    |s| >= 2 && s[0] == '.' && s[1] == '/'
  }

  /** `filePath.replace(/^\.\//, '/')`. */
  function Href(filePath: string): (href: string)
    ensures StartsWithDotSlash(filePath) ==> "." + href == filePath
    ensures !StartsWithDotSlash(filePath) ==> href == filePath
  {
    if StartsWithDotSlash(filePath) then "/" + filePath[2..] else filePath
  }

  /** The position of the first `sep` in `s`, or `|s|` when there is none. */
  function IndexOfChar(s: string, sep: char): (i: nat)
    ensures i <= |s| && (i < |s| ==> s[i] == sep)
    ensures forall k :: 0 <= k < i ==> s[k] != sep
  {
    if s == [] || s[0] == sep then 0 else 1 + IndexOfChar(s[1..], sep)
  }

  /** `s.split(sep)` for a one-character separator: the segments between separators, never none. */
  function SplitOn(s: string, sep: char): (segs: seq<string>)
    ensures |segs| >= 1
    ensures forall k :: 0 <= k < |segs| ==> sep !in segs[k]
    decreases |s|
  {
    var i := IndexOfChar(s, sep);
    if i == |s| then [s] else [s[..i]] + SplitOn(s[i + 1..], sep)
  }

  /** `segs.join(sep)`. */
  function Join(segs: seq<string>, sep: char): string
    requires |segs| >= 1
  {
    if |segs| == 1 then segs[0] else segs[0] + [sep] + Join(segs[1..], sep)
  }

  /** Splitting loses nothing: joining the segments with the separator gives back the string. */
  lemma {:induction false} SplitOnJoin(s: string, sep: char)
    ensures Join(SplitOn(s, sep), sep) == s
    decreases |s|
  {
    var i := IndexOfChar(s, sep);
    if i < |s| {
      SplitOnJoin(s[i + 1..], sep);
      var segs := SplitOn(s, sep);
      assert segs[1..] == SplitOn(s[i + 1..], sep);
      assert s == s[..i] + [sep] + s[i + 1..];
    }
  }

  function Last(segs: seq<string>): string
    requires |segs| >= 1
  {
    segs[|segs| - 1]
  }

  /** `href.split('/').pop()`. */
  function DownloadName(href: string): string
  {
    Last(SplitOn(href, '/'))
  }

  /** What the page hands to the browser for `filePath`. */
  function RequestFor(filePath: string): Request
  {
    var href := Href(filePath);
    Request(href, DownloadName(href))
  }

  /**
   * The download name is the part of the target after its last '/': it holds
   * no '/', ends the target, and is either the whole target or preceded by '/'.
   */
  lemma {:induction false} DownloadNameIsLastSegment(href: string)
    ensures var n := DownloadName(href);
      && '/' !in n && |n| <= |href| && href[|href| - |n|..] == n
      && (|n| == |href| || href[|href| - |n| - 1] == '/')
    decreases |href|
  {
    var i := IndexOfChar(href, '/');
    if i < |href| {
      var rest := href[i + 1..];
      DownloadNameIsLastSegment(rest);
      var segs := SplitOn(href, '/');
      assert segs[1..] == SplitOn(rest, '/');
      assert DownloadName(href) == DownloadName(rest);
      var n := DownloadName(rest);
      assert href[|href| - |n|..] == rest[|rest| - |n|..];
      if |n| == |rest| {
        assert href[|href| - |n| - 1] == href[i];
      } else {
        assert href[|href| - |n| - 1] == rest[|rest| - |n| - 1];
      }
    }
  }

  /** The rewritten target never starts with "./", so rewriting it again changes nothing. */
  lemma HrefIdempotent(filePath: string)
    ensures !StartsWithDotSlash(Href(filePath))
    ensures Href(Href(filePath)) == Href(filePath)
  {
  }

  /** Rewriting "./" to "/" keeps the file name the download suggests. */
  lemma HrefKeepsName(filePath: string)
    ensures DownloadName(Href(filePath)) == DownloadName(filePath)
  {
  }
}
