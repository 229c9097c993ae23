/**
 * getFaviconType (src/components/MetaTags.tsx): the MIME type announced for
 * the favicon, read from a `data:` URL or guessed from the file extension.
 */
module MetaTags {

  /** String.prototype.split with a one-character separator. */
  function Split(s: string, sep: char): (parts: seq<string>)
    ensures |parts| >= 1
    ensures forall i :: 0 <= i < |parts| ==> sep !in parts[i]
    ensures |parts| >= 2 <==> sep in s
  {
    if s == [] then [[]]
    else
      var rest := Split(s[1..], sep);
      if s[0] == sep then [[]] + rest
      else [[s[0]] + rest[0]] + rest[1..]
  }

  /** Array.prototype.join with a one-character separator. */
  function Join(parts: seq<string>, sep: char): string
    requires |parts| >= 1
  {
    if |parts| == 1 then parts[0] else parts[0] + [sep] + Join(parts[1..], sep)
  }

  /** Joining the pieces of a split gives the string back. */
  lemma {:induction false} JoinSplit(s: string, sep: char)
    ensures Join(Split(s, sep), sep) == s
    decreases |s|
  {
    if s != [] {
      var rest := Split(s[1..], sep);
      JoinSplit(s[1..], sep);
      if s[0] == sep {
        assert ([[]] + rest)[1..] == rest;
      } else {
        var parts := [[s[0]] + rest[0]] + rest[1..];
        if |rest| > 1 {
          assert parts[1..] == rest[1..];
          assert Join(rest, sep) == rest[0] + [sep] + Join(rest[1..], sep);
        }
      }
    }
  }

  /** Splitting pieces joined by a separator they do not contain gives the pieces back. */
  lemma {:induction false} SplitJoin(parts: seq<string>, sep: char)
    requires |parts| >= 1
    requires forall i :: 0 <= i < |parts| ==> sep !in parts[i]
    ensures Split(Join(parts, sep), sep) == parts
    decreases |parts|, |parts[0]|
  {
    var s := Join(parts, sep);
    if parts[0] == [] {
      if |parts| > 1 {
        assert s == [sep] + Join(parts[1..], sep);
        assert s[1..] == Join(parts[1..], sep);
        SplitJoin(parts[1..], sep);
      }
    } else {
      var shorter := [parts[0][1..]] + parts[1..];
      assert sep !in parts[0][1..] by {
        assert forall c :: c in parts[0][1..] ==> c in parts[0];
      }
      assert parts[0] == [parts[0][0]] + parts[0][1..];
      if |parts| == 1 {
        assert s[1..] == Join(shorter, sep);
      } else {
        assert shorter[1..] == parts[1..];
        assert s[1..] == Join(shorter, sep);
      }
      SplitJoin(shorter, sep);
    }
  }

  /** The first piece of a split is the text before the first separator. */
  lemma SplitFirst(s: string, sep: char)
    ensures Split(s, sep)[0] <= s
    ensures |Split(s, sep)[0]| < |s| ==> s[|Split(s, sep)[0]|] == sep
  {
    var parts := Split(s, sep);
    JoinSplit(s, sep);
    if |parts| > 1 {
      assert s == parts[0] + ([sep] + Join(parts[1..], sep));
    }
  }

  /** The last piece of a split is the text after the last separator. */
  lemma {:induction false} SplitLast(s: string, sep: char)
    ensures var parts := Split(s, sep); var last := parts[|parts| - 1];
      && |last| <= |s| && s[|s| - |last|..] == last
      && (|last| < |s| ==> s[|s| - |last| - 1] == sep)
  {
    var parts := Split(s, sep);
    JoinSplit(s, sep);
    JoinLast(parts, sep);
  }

  lemma {:induction false} JoinLast(parts: seq<string>, sep: char)
    requires |parts| >= 1
    ensures var s := Join(parts, sep); var last := parts[|parts| - 1];
      && |last| <= |s| && s[|s| - |last|..] == last
      && (|last| < |s| ==> |parts| > 1 && s[|s| - |last| - 1] == sep)
    decreases |parts|
  {
    if |parts| > 1 {
      JoinLast(parts[1..], sep);
      var s := Join(parts, sep);
      var t := Join(parts[1..], sep);
      assert s == (parts[0] + [sep]) + t;
      assert parts[1..][|parts| - 2] == parts[|parts| - 1];
    }
  }

  /** The text after the last '.', or the whole URL when it has none. */
  function Extension(url: string): (ext: string)
    ensures '.' !in ext
    ensures |ext| <= |url| && url[|url| - |ext|..] == ext
    ensures |ext| < |url| ==> url[|url| - |ext| - 1] == '.'
  {
    SplitLast(url, '.');
    var parts := Split(url, '.');
    parts[|parts| - 1]
  }

  function LowerChar(c: char): char {
    if 'A' <= c <= 'Z' then (c as int + 32) as char else c
  }

  /** toLowerCase on the ASCII letters. */
  function Lower(s: string): (r: string)
    ensures |r| == |s|
    ensures forall i :: 0 <= i < |s| ==> r[i] == LowerChar(s[i])
  {
    seq(|s|, i requires 0 <= i < |s| => LowerChar(s[i]))
  }

  const DataPrefix: string := "data:"

  /** The MIME strings the extension switch can produce. */
  const KnownTypes: set<string> := {"image/svg+xml", "image/x-icon", "image/png", "image/jpeg"}

  /**
   * The favicon's MIME type. For a `data:` URL it is the text after "data:"
   * up to the first ':' or ';'; otherwise it is chosen by the lower-cased
   * extension, and defaults to image/x-icon.
   */
  function FaviconType(url: string): (mime: string)
    ensures DataPrefix <= url ==>
      && DataPrefix + mime <= url
      && ':' !in mime && ';' !in mime
      && (|DataPrefix + mime| < |url| ==> url[|DataPrefix + mime|] in {':', ';'})
    ensures !(DataPrefix <= url) ==> mime in KnownTypes
    ensures !(DataPrefix <= url) ==>
      var ext := Lower(Extension(url));
      && (mime == "image/svg+xml" <==> ext == "svg")
      && (mime == "image/png" <==> ext == "png")
      && (mime == "image/jpeg" <==> ext == "jpg" || ext == "jpeg")
      && (mime == "image/x-icon" <==> ext !in {"svg", "png", "jpg", "jpeg"})
  {
    if DataPrefix <= url then
      DataUrlType(url);
      Split(Split(url, ';')[0], ':')[1]
    else
      var ext := Lower(Extension(url));
      if ext == "svg" then "image/svg+xml"
      else if ext == "ico" then "image/x-icon"
      else if ext == "png" then "image/png"
      else if ext == "jpg" || ext == "jpeg" then "image/jpeg"
      else "image/x-icon"
  }

  /** `url.split(';')[0].split(':')[1]` is the text after "data:" up to the first ':' or ';'. */
  lemma DataUrlType(url: string)
    requires DataPrefix <= url
    ensures |Split(Split(url, ';')[0], ':')| >= 2
    ensures var mime := Split(Split(url, ';')[0], ':')[1];
      && DataPrefix + mime <= url
      && ':' !in mime && ';' !in mime
      && (|DataPrefix + mime| < |url| ==> url[|DataPrefix + mime|] in {':', ';'})
  {
    var head := Split(url, ';')[0];
    DataHead(url);
    var tail := head[5..];
    assert head == "data" + [':'] + tail;
    SplitAfter("data", tail, ':');
    MimeInHead(url, head, tail);
  }

  /** The first ':'-piece of what follows "data:" ends at a ':' or at the end of the ';'-free head. */
  lemma MimeInHead(url: string, head: string, tail: string)
    requires head <= url && ';' !in head && (|head| < |url| ==> url[|head|] == ';')
    requires head == DataPrefix + tail
    ensures var mime := Split(tail, ':')[0];
      && DataPrefix + mime <= url
      && ':' !in mime && ';' !in mime
      && (|DataPrefix + mime| < |url| ==> url[|DataPrefix + mime|] in {':', ';'})
  {
    var mime := Split(tail, ':')[0];
    SplitFirst(tail, ':');
    var n := |DataPrefix + mime|;
    assert DataPrefix + mime == head[..n];
    assert ';' !in mime by {
      assert forall i :: 0 <= i < |mime| ==> mime[i] == head[5 + i];
    }
    if n < |head| {
      assert url[n] == head[n] == tail[|mime|];
    }
  }

  /** The part of a `data:` URL before its first ';' still starts with "data:". */
  lemma DataHead(url: string)
    requires DataPrefix <= url
    ensures var head := Split(url, ';')[0];
      && |head| >= 5 && head[..5] == DataPrefix && head <= url
      && (|head| < |url| ==> url[|head|] == ';')
  {
    var head := Split(url, ';')[0];
    SplitFirst(url, ';');
  }

  /** A separator-free word in front of a separator becomes the first piece. */
  lemma {:induction false} SplitAfter(word: string, tail: string, sep: char)
    requires sep !in word
    ensures Split(word + [sep] + tail, sep) == [word] + Split(tail, sep)
    decreases |word|
  {
    var s := word + [sep] + tail;
    if word == [] {
      assert s[1..] == tail;
    } else {
      assert s[1..] == word[1..] + [sep] + tail;
      SplitAfter(word[1..], tail, sep);
      assert [word[0]] + word[1..] == word;
    }
  }

  lemma UpperCaseExample()
    ensures FaviconType("ICON.SVG") == "image/svg+xml"
  {
    assert Lower("SVG") == "svg";
    LowerExtension("ICON.SVG", 4, "svg");
  }

  lemma JpegExample()
    ensures FaviconType("logo.jpeg") == "image/jpeg"
  {
    LowerExtension("logo.jpeg", 4, "jpeg");
  }

  /** With a single '.' at position dot, the extension is what follows it. */
  lemma LowerExtension(url: string, dot: nat, lower: string)
    requires dot < |url| && url[dot] == '.' && '.' !in url[dot + 1..]
    requires Lower(url[dot + 1..]) == lower
    ensures Lower(Extension(url)) == lower
  {
  }
}
