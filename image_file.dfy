/** wpsync_webspark_get_image_file_info: find, in a noisy picture reference,
    the '/'-separated piece that names an image file, and the path up to it. */
module ImageFile {
  import opened Records

  /** The substrings the resolver looks for, in the order it tries them. */
  const Extensions: seq<string> := [".jpg", ".jpeg", ".png", ".ico", ".gif"]

  datatype FileInfo = FileInfo(name: string, path: string)

  /** ASCII lower-casing, as stripos compares. */
  function Lower(c: char): char {
    if 'A' <= c <= 'Z' then (c as int + 32) as char else c
  }

  predicate MatchesAt(hay: string, needle: string, i: nat)
    requires i + |needle| <= |hay|
  {
    forall j :: 0 <= j < |needle| ==> Lower(hay[i + j]) == Lower(needle[j])
  }

  /** stripos(hay, needle) !== false. */
  predicate ContainsIgnoringCase(hay: string, needle: string) {
    exists i :: 0 <= i <= |hay| - |needle| && MatchesAt(hay, needle, i)
  }

  /** Some extension occurs in the segment, anywhere, in any letter case. */
  predicate HasImageExtension(segment: string) {
    exists e :: 0 <= e < |Extensions| && ContainsIgnoringCase(segment, Extensions[e])
  }

  /** Some of the first e extensions occurs in the segment. */
  predicate MatchesFirstExtensions(segment: string, e: nat)
    requires e <= |Extensions|
  {
    e > 0 && (MatchesFirstExtensions(segment, e - 1) || ContainsIgnoringCase(segment, Extensions[e - 1]))
  }

  lemma {:induction false} MatchesFirstExtensionsMeaning(segment: string, e: nat)
    requires e <= |Extensions|
    ensures MatchesFirstExtensions(segment, e) <==> exists j :: 0 <= j < e && ContainsIgnoringCase(segment, Extensions[j])
  {
    if e > 0 {
      MatchesFirstExtensionsMeaning(segment, e - 1);
    }
  }

  /** explode('/', s). */
  function Explode(s: string): (segments: seq<string>)
    ensures |segments| >= 1
    ensures forall k :: 0 <= k < |segments| ==> '/' !in segments[k]
    decreases |s|
  {
    if s == [] then [""]
    else
      var rest := Explode(s[1..]);
      if s[0] == '/' then [""] + rest else [[s[0]] + rest[0]] + rest[1..]
  }

  /** implode('/', segments). */
  function Implode(segments: seq<string>): string
    decreases |segments|
  {
    if segments == [] then ""
    else if |segments| == 1 then segments[0]
    else segments[0] + "/" + Implode(segments[1..])
  }

  /** The index the resolver's loop ends with: the LAST segment carrying an extension. */
  function LastImageSegment(segments: seq<string>): (r: Option<nat>)
    ensures r.Some? ==> r.value < |segments| && HasImageExtension(segments[r.value])
    ensures r.Some? ==> forall k :: r.value < k < |segments| ==> !HasImageExtension(segments[k])
    ensures r.None? ==> forall k :: 0 <= k < |segments| ==> !HasImageExtension(segments[k])
    decreases |segments|
  {
    if segments == [] then None
    else if HasImageExtension(segments[|segments| - 1]) then Some(|segments| - 1)
    else LastImageSegment(segments[..|segments| - 1])
  }

  /** What the resolver returns; None stands for PHP's false. */
  function ImageFileInfo(maybePath: string): Option<FileInfo> {
    var pathData := Explode(maybePath);
    match LastImageSegment(pathData)
    case None => None
    case Some(k) => Some(FileInfo(pathData[k], Implode(pathData[..k + 1])))
  }

  /** The nested loops of wpsync_webspark_get_image_file_info. */
  method GetImageFileInfo(maybePath: string) returns (info: Option<FileInfo>)
    ensures info == ImageFileInfo(maybePath)
  {
    var pathData := Explode(maybePath);
    var imageFilenameFound := false;
    var imageKey := 0;
    for key := 0 to |pathData|
      invariant imageFilenameFound ==> imageKey < key
      invariant LastImageSegment(pathData[..key])
             == if imageFilenameFound then Some(imageKey) else None
    {
      ghost var before := if imageFilenameFound then Some(imageKey) else None;
      for e := 0 to |Extensions|
        invariant imageFilenameFound ==> imageKey <= key
        invariant (if imageFilenameFound then Some(imageKey) else None)
               == if MatchesFirstExtensions(pathData[key], e) then Some(key) else before
      {
        if ContainsIgnoringCase(pathData[key], Extensions[e]) {
          imageFilenameFound := true;
          imageKey := key;
        }
      }
      MatchesFirstExtensionsMeaning(pathData[key], |Extensions|);
      assert pathData[..key + 1][..key] == pathData[..key];
    }
    assert pathData[..|pathData|] == pathData;
    if imageFilenameFound {
      info := Some(FileInfo(pathData[imageKey], Implode(pathData[..imageKey + 1])));
    } else {
      info := None;
    }
  }

  /** Exploding and imploding on '/' give back the input. */
  lemma {:induction false} ImplodeExplode(s: string)
    ensures Implode(Explode(s)) == s
    decreases |s|
  {
    if s != [] {
      var rest := Explode(s[1..]);
      ImplodeExplode(s[1..]);
      if s[0] == '/' {
        assert Explode(s) == [""] + rest;
        assert s == [s[0]] + s[1..];
      } else {
        var head := [s[0]] + rest[0];
        assert Explode(s) == [head] + rest[1..];
        if |rest| == 1 {
          assert s == [s[0]] + rest[0];
        } else {
          assert Implode(rest) == rest[0] + "/" + Implode(rest[1..]);
          assert ([head] + rest[1..])[1..] == rest[1..];
          assert s == [s[0]] + s[1..];
        }
      }
    }
  }

  /** Imploding segments free of '/' and exploding the result give them back. */
  lemma {:induction false} ExplodeImplode(segments: seq<string>)
    requires |segments| >= 1
    requires forall k :: 0 <= k < |segments| ==> '/' !in segments[k]
    ensures Explode(Implode(segments)) == segments
    decreases |segments|, |segments[0]|, 1
  {
    if segments[0] == [] {
      if |segments| > 1 {
        ExplodeImplode(segments[1..]);
        assert Implode(segments) == "/" + Implode(segments[1..]);
        assert ("/" + Implode(segments[1..]))[1..] == Implode(segments[1..]);
        assert segments == [""] + segments[1..];
      }
    } else {
      ExplodeImplodeFirstChar(segments);
    }
  }

  /** ExplodeImplode when the first segment is not empty: peel off its first character. */
  lemma {:induction false} ExplodeImplodeFirstChar(segments: seq<string>)
    requires |segments| >= 1 && segments[0] != []
    requires forall k :: 0 <= k < |segments| ==> '/' !in segments[k]
    ensures Explode(Implode(segments)) == segments
    decreases |segments|, |segments[0]|, 0
  {
    var head := segments[0];
    var shorter := [head[1..]] + segments[1..];
    assert shorter[1..] == segments[1..];
    assert '/' !in head[1..] by {
      forall c | c in head[1..] ensures c != '/' { assert c in head; }
    }
    ExplodeImplode(shorter);
    ImplodeFirstChar(segments);
    assert head[0] != '/' by { assert head[0] in head; }
    assert [head[0]] + head[1..] == head;
    assert segments == [head] + segments[1..];
  }

  /** Joining segments whose first one is not empty starts with its first
      character, followed by the join with that character removed. */
  lemma ImplodeFirstChar(segments: seq<string>)
    requires |segments| >= 1 && segments[0] != []
    ensures |Implode(segments)| >= 1 && Implode(segments)[0] == segments[0][0]
    ensures Implode(segments)[1..] == Implode([segments[0][1..]] + segments[1..])
  {
    if |segments| > 1 {
      ImplodeFirstCharOfMany(segments[0], segments[1..]);
      assert segments == [segments[0]] + segments[1..];
    } else {
      assert Implode([segments[0][1..]] + segments[1..]) == segments[0][1..];
    }
  }

  lemma ImplodeFirstCharOfMany(head: string, rest: seq<string>)
    requires head != [] && rest != []
    ensures Implode([head] + rest) == head + "/" + Implode(rest)
    ensures Implode([head[1..]] + rest) == head[1..] + "/" + Implode(rest)
    ensures (head + "/" + Implode(rest))[1..] == head[1..] + "/" + Implode(rest)
  {
    assert ([head] + rest)[1..] == rest;
    assert ([head[1..]] + rest)[1..] == rest;
  }

  /** Imploding a longer run of segments extends the implosion of a shorter run. */
  lemma {:induction false} ImplodePrefix(segments: seq<string>, n: nat)
    requires 1 <= n < |segments|
    ensures Implode(segments) == Implode(segments[..n]) + "/" + Implode(segments[n..])
    decreases n
  {
    if n > 1 {
      ImplodePrefix(segments[1..], n - 1);
      assert segments[1..][..n - 1] == segments[..n][1..];
      assert segments[1..][n - 1..] == segments[n..];
    }
  }

  /** The implosion of a non-empty run ends with its last segment. */
  lemma {:induction false} ImplodeEndsWithLast(segments: seq<string>)
    requires |segments| >= 1
    ensures |segments[|segments| - 1]| <= |Implode(segments)|
    ensures Implode(segments)[|Implode(segments)| - |segments[|segments| - 1]|..] == segments[|segments| - 1]
    decreases |segments|
  {
    if |segments| > 1 {
      ImplodeEndsWithLast(segments[1..]);
    }
  }

  /** A leading run of segments joins to a prefix of the whole join. */
  lemma ImplodeLeadingRun(segments: seq<string>, n: nat)
    requires 1 <= n <= |segments|
    ensures Implode(segments[..n]) <= Implode(segments)
  {
    if n < |segments| {
      ImplodePrefix(segments, n);
    } else {
      assert segments[..n] == segments;
    }
  }

  /** The resolver finds a file exactly when some '/'-separated segment
      contains one of the extensions, ignoring case. */
  lemma ImageFileInfoFound(maybePath: string)
    ensures ImageFileInfo(maybePath).Some?
        <==> exists k :: 0 <= k < |Explode(maybePath)| && HasImageExtension(Explode(maybePath)[k])
  {
    var pathData := Explode(maybePath);
    var found := LastImageSegment(pathData);
    assert ImageFileInfo(maybePath).Some? <==> found.Some?;
    if found.Some? {
      var k := found.value;
      assert 0 <= k < |Explode(maybePath)| && HasImageExtension(Explode(maybePath)[k]);
    }
  }

  /** The join of the segments up to k is a prefix of the input that ends with segment k. */
  lemma ImagePathOfSegment(maybePath: string, k: nat)
    requires k < |Explode(maybePath)|
    ensures var path := Implode(Explode(maybePath)[..k + 1]);
            && path <= maybePath
            && |Explode(maybePath)[k]| <= |path|
            && path[|path| - |Explode(maybePath)[k]|..] == Explode(maybePath)[k]
  {
    var pathData := Explode(maybePath);
    ImplodeExplode(maybePath);
    ImplodeLeadingRun(pathData, k + 1);
    ImplodeEndsWithLast(pathData[..k + 1]);
    assert pathData[..k + 1][k] == pathData[k];
  }

  /** The name is the LAST segment with an extension and holds no '/'; the
      path is the part of the input that ends with that segment. */
  lemma ImageFileInfoMeaning(maybePath: string)
    ensures ImageFileInfo(maybePath).Some? ==>
              var info := ImageFileInfo(maybePath).value;
              && HasImageExtension(info.name)
              && '/' !in info.name
              && info.path <= maybePath
              && |info.name| <= |info.path|
              && info.path[|info.path| - |info.name|..] == info.name
  {
    var found := LastImageSegment(Explode(maybePath));
    if found.Some? {
      ImagePathOfSegment(maybePath, found.value);
    }
  }
}
