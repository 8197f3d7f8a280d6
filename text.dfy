/**
 * The string helpers of youtube_summarizer.py: `url.split("=")[1]`, which takes the video id
 * out of a link, and `" ".join(segment["text"] for segment in transcript_text)`, which
 * assembles a transcript from caption segments.
 */
module Text {
  import opened Common

  /** Python's `s.split(sep)` for a one-character separator: the pieces between separators, in order. */
  function Split(s: string, sep: char): (parts: seq<string>)
    ensures |parts| >= 1
    ensures |parts| == 1 <==> sep !in s
    ensures forall i | 0 <= i < |parts| :: sep !in parts[i]
    decreases |s|
  {
    match IndexOf(s, sep)
    case None => [s]
    case Some(i) => [s[..i]] + Split(s[i + 1..], sep)
  }

  /** Python's `sep.join(parts)`. */
  function Join(parts: seq<string>, sep: string): (joined: string)
  {
    if |parts| == 0 then ""
    else if |parts| == 1 then parts[0]
    else parts[0] + sep + Join(parts[1..], sep)
  }

  /** Joining the pieces of a split with the separator gives back the original string. */
  lemma {:induction false} JoinSplit(s: string, sep: char)
    ensures Join(Split(s, sep), [sep]) == s
    decreases |s|
  {
    match IndexOf(s, sep)
    case None =>
    case Some(i) =>
      SplitAtFirst(s, sep, i);
      Reassemble(s, i);
      JoinSplit(s[i + 1..], sep);
      JoinCons(s[..i], Split(s[i + 1..], sep), [sep]);
  }

  /** Splitting at the first separator: the piece before it, then the split of the rest. */
  lemma SplitAtFirst(s: string, sep: char, i: nat)
    requires IndexOf(s, sep) == Some(i)
    ensures Split(s, sep) == [s[..i]] + Split(s[i + 1..], sep)
  {
  }

  /** A string is the part before position `i`, the character there, and the part after it. */
  lemma Reassemble(s: string, i: nat)
    requires i < |s|
    ensures s == s[..i] + [s[i]] + s[i + 1..]
  {
    assert s[i..] == [s[i]] + s[i + 1..];
    assert s == s[..i] + s[i..];
  }

  /** Joining a first piece onto at least one more puts the separator between them. */
  lemma JoinCons(head: string, rest: seq<string>, sep: string)
    requires |rest| >= 1
    ensures Join([head] + rest, sep) == head + sep + Join(rest, sep)
  {
    assert ([head] + rest)[1..] == rest;
  }

  /** Splitting a join of separator-free pieces gives back the pieces. */
  lemma {:induction false} SplitJoin(parts: seq<string>, sep: char)
    requires |parts| >= 1
    requires forall i | 0 <= i < |parts| :: sep !in parts[i]
    ensures Split(Join(parts, [sep]), sep) == parts
  {
    if |parts| > 1 {
      var s := Join(parts, [sep]);
      var k := |parts[0]|;
      var rest := Join(parts[1..], [sep]);
      assert s == parts[0] + [sep] + rest;
      assert s[..k] == parts[0];
      assert s[k + 1..] == rest;
      IndexOfIsFirst(s, sep, k);
      assert Split(s, sep) == [parts[0]] + Split(rest, sep);
      SplitJoin(parts[1..], sep);
      assert parts == [parts[0]] + parts[1..];
    }
  }

  // ---------------------------------------------------------------------------
  // Video id: `youtube_video_url.split("=")[1]`.
  // ---------------------------------------------------------------------------

  /**
   * The second `=`-separated field of `url`; None where Python raises IndexError
   * (a link without any `=`).
   */
  function VideoId(url: string): (r: Option<string>)
    ensures r.None? <==> '=' !in url
    ensures r.Some? ==> '=' !in r.value
  {
    var parts := Split(url, '=');
    if |parts| >= 2 then Some(parts[1]) else None
  }

  /** The video id is the text after the first `=`, up to the next `=` or the end of the link. */
  lemma VideoIdIsSecondField(url: string, i: nat, j: nat)
    requires i < j <= |url|
    requires url[i] == '=' && '=' !in url[..i]
    requires '=' !in url[i + 1..j]
    requires j == |url| || url[j] == '='
    ensures VideoId(url) == Some(url[i + 1..j])
  {
    IndexOfIsFirst(url, '=', i);
    SplitAtFirst(url, '=', i);
    FieldAfter(url, i, j);
    assert Split(url, '=')[1] == Split(url[i + 1..], '=')[0];
  }

  /** The first `=`-separated field of what follows position `i` runs up to the next `=`, or to the end. */
  lemma FieldAfter(url: string, i: nat, j: nat)
    requires i < j <= |url|
    requires '=' !in url[i + 1..j]
    requires j == |url| || url[j] == '='
    ensures Split(url[i + 1..], '=')[0] == url[i + 1..j]
  {
    var rest, m := url[i + 1..], j - i - 1;
    assert rest[..m] == url[i + 1..j];
    if j == |url| {
      assert rest == url[i + 1..j];
    } else {
      IndexOfIsFirst(rest, '=', m);
    }
  }

  /** The common case: a watch link with a single query parameter. */
  lemma WatchLinkExample()
    ensures VideoId("watch?v=x1Y_") == Some("x1Y_")
  {
    var url := "watch?v=x1Y_";
    assert url[..7] == "watch?v";
    VideoIdIsSecondField(url, 7, |url|);
  }

  // ---------------------------------------------------------------------------
  // Transcript: `" ".join(segment["text"] for segment in transcript_text)`.
  // ---------------------------------------------------------------------------

  /** One caption segment as the caption provider returns it; only its text is used. */
  datatype Segment = Segment(text: string)

  function Texts(segments: seq<Segment>): (texts: seq<string>)
    ensures |texts| == |segments|
    ensures forall i | 0 <= i < |segments| :: texts[i] == segments[i].text
  {
    seq(|segments|, i requires 0 <= i < |segments| => segments[i].text)
  }

  /** The transcript: the segment texts in the provider's order, separated by single spaces. */
  function Transcript(segments: seq<Segment>): (transcript: string)
  {
    Join(Texts(segments), " ")
  }

  /** Joining keeps order: the join of `a + b` is the join of `a`, a separator, then the join of `b`. */
  lemma {:induction false} JoinAppend(a: seq<string>, b: seq<string>, sep: string)
    requires |a| >= 1 && |b| >= 1
    ensures Join(a + b, sep) == Join(a, sep) + sep + Join(b, sep)
  {
    if |a| > 1 {
      JoinAppend(a[1..], b, sep);
      assert (a + b)[1..] == a[1..] + b;
    }
  }

  /** The transcript of consecutive runs of segments is their transcripts joined by one space. */
  lemma TranscriptAppend(a: seq<Segment>, b: seq<Segment>)
    requires |a| >= 1 && |b| >= 1
    ensures Transcript(a + b) == Transcript(a) + " " + Transcript(b)
  {
    assert Texts(a + b) == Texts(a) + Texts(b);
    JoinAppend(Texts(a), Texts(b), " ");
  }

  /** When no segment text holds a space, splitting the transcript at spaces recovers the texts. */
  lemma TranscriptSplitsBack(segments: seq<Segment>)
    requires |segments| >= 1
    requires forall i | 0 <= i < |segments| :: ' ' !in segments[i].text
    ensures Split(Transcript(segments), ' ') == Texts(segments)
  {
    SplitJoin(Texts(segments), ' ');
  }

  /**
   * `extract_transcript_details`: the video id from the link, then the provider's segments
   * joined into a transcript. `fetch` stands for the caption provider; None stands for any
   * exception, which the source catches and turns into None.
   */
  function ExtractTranscriptDetails(url: string, fetch: string -> Option<seq<Segment>>): (r: Option<string>)
    ensures r.Some? ==> '=' in url
    ensures r.Some? <==> VideoId(url).Some? && fetch(VideoId(url).value).Some?
    ensures r.Some? ==> r.value == Transcript(fetch(VideoId(url).value).value)
  {
    match VideoId(url)
    case None => None
    case Some(id) =>
      match fetch(id)
      case None => None
      case Some(segments) => Some(Transcript(segments))
  }
}
