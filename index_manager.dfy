/** The glue around the package-level `model.Comics` index
    (index-manager/xkcd-index-manager.go). The shared index is an explicit
    Model.Collection argument, and the network and the library code behind
    it are the oracles of a Web value. */
module IndexManager {
  import opened Wrappers
  import opened Xkcd
  import Model
  import Sorting

  type Bytes = seq<bv8>

  /** What is fetched: the latest comic's JSON, one comic's JSON, or an image. */
  datatype Resource = LatestJson | ComicJson(number: int) | ImageFile(url: string)

  /** The two ways a metadata fetch fails. */
  datatype Error = TransportError(reason: string) | DecodeError(reason: string)

  /** The outside world: the HTTP body of a resource or a transport error,
      JSON decoding of a body into a comic or a decoder error, and base64
      text encoding. */
  datatype Web = Web(
    get: Resource -> Result<Bytes, string>,
    unmarshal: Bytes -> Result<Comic, string>,
    encodeBase64: Bytes -> string)

  /** The prefix the source puts before a decoder error. */
  const DecodePrefix := "unmarshall comic json: "

  /** fetchLatestComic and fetchComic: fetch one JSON resource and decode it. */
  function FetchJson(web: Web, res: Resource): (r: Result<Comic, Error>)
    ensures r.Success? <==> web.get(res).Success? && web.unmarshal(web.get(res).value).Success?
    ensures r.Success? ==> r.value == web.unmarshal(web.get(res).value).value
    ensures web.get(res).Failure? ==> r == Failure(TransportError(web.get(res).error))
    ensures web.get(res).Success? && r.Failure? ==>
              r == Failure(DecodeError(DecodePrefix + web.unmarshal(web.get(res).value).error))
  {
    match web.get(res)
    case Failure(e) => Failure(TransportError(e))
    case Success(body) =>
      match web.unmarshal(body)
      case Failure(e) => Failure(DecodeError(DecodePrefix + e))
      case Success(x) => Success(x)
  }

  /** The metadata resource DownloadComic asks for: number 0 means the
      latest comic. */
  function MetadataResource(n: int): (res: Resource)
    ensures res == LatestJson <==> n == 0
    ensures n != 0 ==> res == ComicJson(n)
  {
    if n == 0 then LatestJson else ComicJson(n)
  }

  /** DownloadComic: a metadata failure is returned as is; otherwise the
      comic is returned with its image attached when the image download
      succeeds, and unchanged when it fails. */
  function DownloadComic(web: Web, n: int): (r: Result<Comic, Error>)
    ensures var meta := FetchJson(web, MetadataResource(n));
            && (meta.Failure? ==> r == meta)
            && (meta.Success? ==> r.Success? && r.value.(image := meta.value.image) == meta.value)
            && (meta.Success? && web.get(ImageFile(meta.value.imageUrl)).Failure? ==> r == meta)
            && (meta.Success? && web.get(ImageFile(meta.value.imageUrl)).Success? ==>
                  r.value.image == web.encodeBase64(web.get(ImageFile(meta.value.imageUrl)).value))
  {
    match FetchJson(web, MetadataResource(n))
    case Failure(e) => Failure(e)
    case Success(x) =>
      match web.get(ImageFile(x.imageUrl))
      case Failure(_) => Success(x)
      case Success(bytes) => Success(x.(image := web.encodeBase64(bytes)))
  }

  /** DownloadComic consults no metadata resource but its own: two webs that
      agree on it and on every image give the same outcome. */
  lemma DownloadDependsOnlyOnItsResource(web: Web, get2: Resource -> Result<Bytes, string>, n: int)
    requires get2(MetadataResource(n)) == web.get(MetadataResource(n))
    requires forall url :: get2(ImageFile(url)) == web.get(ImageFile(url))
    ensures DownloadComic(web.(get := get2), n) == DownloadComic(web, n)
  {
  }

  /** LoadComics appends every given comic, in order, after the ones already
      held: a merge that neither replaces nor deduplicates. */
  method LoadComics(c: Model.Collection, items: seq<Comic>)
    modifies c
    ensures c.comics == old(c.comics) + items
  {
    for i := 0 to |items|
      invariant c.comics == old(c.comics) + items[..i]
    {
      c.comics := c.comics + [items[i]];
    }
  }

  /** AddToCollection delegates to the collection's deduplicating Add. */
  method AddToCollection(c: Model.Collection, x: Comic)
    modifies c
    ensures c.comics == Model.Added(old(c.comics), x)
  {
    c.Add(x);
  }

  /** Contains delegates to the collection's Contains. */
  method Contains(c: Model.Collection, n: int) returns (b: bool)
    ensures b <==> HasNumber(c.comics, n)
  {
    b := c.Contains(n);
  }

  /** Count is the number of comics in the shared index. */
  function Count(c: Model.Collection): (r: int)
    reads c
    ensures r == c.Len()
  {
    |c.comics|
  }

  /** Sort leaves the shared index a permutation of itself ordered by number. */
  method Sort(c: Model.Collection)
    modifies c
    ensures NonDecreasing(c.comics) && multiset(c.comics) == multiset(old(c.comics))
  {
    c.comics := Sorting.SortByNumber(c.comics);
  }
}
