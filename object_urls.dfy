/** Stand-in for the browser's object-URL store (`URL.createObjectURL` and
    `URL.revokeObjectURL`). A URL is modelled as a fresh number: the store hands out
    `next` and moves `next` on, so no URL is ever handed out twice. */
module ObjectUrls {
  import opened Archive

  type Url = nat

  class UrlRegistry {
    /** The next URL to hand out; every URL handed out so far is below it. */
    var next: nat
    /** The URLs that currently resolve, with the blob each one shows. */
    var live: map<Url, Bytes>
    /** Every call of `revokeObjectURL`, in order. */
    var revocations: seq<Url>

    ghost predicate Valid()
      reads this
    {
      forall u :: u in live ==> u < next
    }

    constructor ()
      ensures Valid()
      ensures next == 0 && live == map[] && revocations == []
    {
      next := 0;
      live := map[];
      revocations := [];
    }

    /** `URL.createObjectURL(blob)`: a URL that no earlier call returned. */
    method CreateObjectUrl(blob: Bytes) returns (url: Url)
      requires Valid()
      modifies this
      ensures Valid()
      ensures url == old(next) && url !in old(live)
      ensures next == old(next) + 1
      ensures live == old(live)[url := blob]
      ensures revocations == old(revocations)
    {
      url := next;
      live := live[url := blob];
      next := next + 1;
    }

    /** `URL.revokeObjectURL(url)`: the URL stops resolving; revoking a URL that does not
        resolve changes nothing but the log. */
    method RevokeObjectUrl(url: Url)
      requires Valid()
      modifies this
      ensures Valid()
      ensures next == old(next)
      ensures live == old(live) - {url}
      ensures revocations == old(revocations) + [url]
    {
      live := live - {url};
      revocations := revocations + [url];
    }
  }
}
