/** From the engine's response to the list of container objects: the decoder and the scanner together. */
module ContainerList {
  import opened Basics
  import opened Text
  import Http
  import JsonScan

  /** The container objects a response lists; none when it has no body. */
  function Listed(response: string): seq<string> {
    var body := Http.BodyOf(response);
    if body.None? then [] else JsonScan.Items(body.value)
  }

  method ReadList(response: string) returns (items: seq<string>)
    ensures items == Listed(response)
  {
    var body := Http.Body(response);
    if body.None? {
      return [];
    }
    items := JsonScan.ArrayItems(body.value);
  }

  lemma {:induction false} DataOfFewer(chunks: seq<Http.Chunk>, k: nat)
    requires k <= |chunks|
    ensures Http.Data(chunks[..k]) <= Http.Data(chunks)
  {
    if k > 0 {
      DataOfFewer(chunks[1..], k - 1);
      assert chunks[..k][1..] == chunks[1..][..k - 1];
    }
  }

  lemma {:induction false} FirstObjects(es: seq<JsonScan.Element>, k: nat)
    requires k <= |es|
    ensures JsonScan.Objects(es[..k]) <= JsonScan.Objects(es)
  {
    if k > 0 {
      FirstObjects(es[1..], k - 1);
      assert es[..k][1..] == es[1..][..k - 1];
    }
  }

  /** A head that ends at its own blank line, of a successful response whose body is chunked. */
  predicate ChunkedHead(head: string) {
    Find(head + Http.BLANK_LINE, Http.BLANK_LINE) == Some(|head|) && Http.Succeeded(head) && Http.IsChunked(head)
  }

  /** The characters of the body that arrived in whole chunks, among the first `n` of the response. */
  function Arrived(head: string, chunks: seq<Http.Chunk>, n: nat): nat {
    var start := |head| + |Http.BLANK_LINE|;
    if n < start then 0 else |Http.Data(chunks[..Http.Whole(chunks, n - start)])|
  }

  /** A successful chunked response that carries a printed array, however it is chunked, escaped and spaced. */
  datatype Reply = Reply(
    head: string, opening: string, elements: seq<JsonScan.Element>, after: string,
    chunks: seq<Http.Chunk>, ending: Http.Ending)
  {
    predicate Valid() {
      && ChunkedHead(head)
      && JsonScan.IsOpening(opening) && JsonScan.IsBlank(after)
      && (forall i | 0 <= i < |elements| :: elements[i].Valid())
      && Http.AllValid(chunks) && ending.Valid()
      && Http.Data(chunks) == JsonScan.PrintArray(opening, elements, after)
    }

    function Sent(): string {
      head + Http.BLANK_LINE + Http.Encode(chunks, ending)
    }

    /** The printed objects that end within the data of the chunks whole among the first `n` characters. */
    function ArrivedObjects(n: nat): seq<string> {
      JsonScan.Objects(elements[..JsonScan.CompleteIn(opening, elements, Arrived(head, chunks, n))])
    }
  }

  /** Wherever a reply is cut, its head included, what is listed is exactly the objects that have arrived. */
  lemma {:induction false} CutReplyListsWhatArrived(r: Reply, cut: string)
    requires r.Valid() && cut <= r.Sent()
    ensures Listed(cut) == r.ArrivedObjects(|cut|)
  {
    if |cut| < |r.head| + |Http.BLANK_LINE| {
      CutOfTwo(r.head + Http.BLANK_LINE, Http.Encode(r.chunks, r.ending), cut);
      CutHeadListsNothing(r, cut);
    } else {
      var body := CutAfterTheHead(r.head, Http.Encode(r.chunks, r.ending), cut);
      CutBodyListsWhatArrived(r, body);
    }
  }

  /** So what is listed is a prefix of the printed objects, and all of them when nothing is missing. */
  lemma {:induction false} CutReplyListsAPrefix(r: Reply, cut: string)
    requires r.Valid() && cut <= r.Sent()
    ensures Listed(cut) <= JsonScan.Objects(r.elements)
    ensures cut == r.Sent() ==> Listed(cut) == JsonScan.Objects(r.elements)
  {
    CutReplyListsWhatArrived(r, cut);
    FirstObjects(r.elements, JsonScan.CompleteIn(r.opening, r.elements, Arrived(r.head, r.chunks, |cut|)));
    WholeReplyListsAll(r);
  }

  lemma {:induction false} CutAfterTheHead(head: string, encoded: string, cut: string) returns (body: string)
    requires cut <= head + Http.BLANK_LINE + encoded && |cut| >= |head| + |Http.BLANK_LINE|
    ensures body <= encoded && cut == head + Http.BLANK_LINE + body
    ensures |cut| == |head| + |Http.BLANK_LINE| + |body|
  {
    var start := head + Http.BLANK_LINE;
    CutOfTwo(start, encoded, cut);
    body := cut[|start|..];
  }

  lemma {:induction false} CutHeadListsNothing(r: Reply, cut: string)
    requires r.Valid() && cut <= r.head + Http.BLANK_LINE && |cut| < |r.head| + |Http.BLANK_LINE|
    ensures Listed(cut) == r.ArrivedObjects(|cut|) == []
  {
    Http.CutHeadHasNoBody(r.head, cut);
    JsonScan.NoneIsComplete(r.elements);
  }

  lemma {:induction false} CutBodyListsWhatArrived(r: Reply, body: string)
    requires r.Valid() && body <= Http.Encode(r.chunks, r.ending)
    ensures Listed(r.head + Http.BLANK_LINE + body) == r.ArrivedObjects(|r.head| + |Http.BLANK_LINE| + |body|)
  {
    Http.HeadIsSplitOff(r.head, body);
    Http.CutBodyDecodesToWholeChunks(r.chunks, r.ending, body);
    DataOfFewer(r.chunks, Http.Whole(r.chunks, |body|));
    JsonScan.ItemsOfACutArray(r.opening, r.elements, r.after, Http.Decode(body));
  }

  lemma {:induction false} WholeReplyListsAll(r: Reply)
    requires r.Valid()
    ensures Listed(r.Sent()) == JsonScan.Objects(r.elements)
  {
    Http.HeadIsSplitOff(r.head, Http.Encode(r.chunks, r.ending));
    Http.ChunkingIsUndone(r.chunks, r.ending);
    JsonScan.ItemsOfAPrintedArray(r.opening, r.elements, r.after);
  }
}
