/**
 * The capped download loops of `RunImport_GetImages` (TvDB posters, fanart
 * and wide banners, MovieDB posters and fanart). Each loop first counts the
 * images of every series (or movie) already on disk, then queues missing
 * ones while that series' count of present-plus-queued images stays below
 * the configured amount.
 */
module Images {
  import opened Seqs
  import opened Jobs

  /** An image record: its id, the series or movie it belongs to, and its full local path ("" when unknown). */
  datatype Image = Image(id: int, owner: int, path: string)

  /** `File.Exists`, as an oracle over full paths. */
  type OnDisk = string -> bool

  predicate Present(img: Image, onDisk: OnDisk) {
    img.path != "" && onDisk(img.path)
  }

  predicate Missing(img: Image, onDisk: OnDisk) {
    img.path != "" && !onDisk(img.path)
  }

  /** The images of one owner already on disk. */
  function PresentOf(images: seq<Image>, onDisk: OnDisk, owner: int): seq<Image> {
    Filter(images, (i: Image) => Present(i, onDisk) && i.owner == owner)
  }

  /** The images of one owner that could be downloaded, in list order. */
  function MissingOf(images: seq<Image>, onDisk: OnDisk, owner: int): seq<Image> {
    Filter(images, (i: Image) => Missing(i, onDisk) && i.owner == owner)
  }

  /** The `Dictionary<int, int>` of counts; an absent key reads as 0 (`ContainsKey` else 0). */
  function Get(counts: map<int, int>, owner: int): int {
    if owner in counts then counts[owner] else 0
  }

  /** The count update of both loops: add one, or start at one. */
  function Bump(counts: map<int, int>, owner: int): (r: map<int, int>)
    ensures Get(r, owner) == Get(counts, owner) + 1
    ensures forall o :: o != owner ==> Get(r, o) == Get(counts, o)
  {
    counts[owner := Get(counts, owner) + 1]
  }

  /** The first loop: every image on disk adds one to its owner's count. */
  function CountPresent(images: seq<Image>, onDisk: OnDisk, counts: map<int, int>): (r: map<int, int>)
    decreases images
    ensures forall o :: Get(r, o) == Get(counts, o) + |PresentOf(images, onDisk, o)|
  {
    if images == [] then counts
    else
      var img := images[0];
      CountPresent(images[1..], onDisk, if Present(img, onDisk) then Bump(counts, img.owner) else counts)
  }

  /** The second loop: the images it queues, in order; a queued image counts against its owner's cap. */
  function QueueMissing(images: seq<Image>, onDisk: OnDisk, amount: int, counts: map<int, int>): (r: seq<Image>)
    decreases images
    ensures forall i :: 0 <= i < |r| ==> r[i] in images && Missing(r[i], onDisk)
  {
    if images == [] then []
    else
      var img := images[0];
      if Missing(img, onDisk) && Get(counts, img.owner) < amount then
        [img] + QueueMissing(images[1..], onDisk, amount, Bump(counts, img.owner))
      else
        QueueMissing(images[1..], onDisk, amount, counts)
  }

  /**
   * One capped pass, behind its `Auto…` setting: nothing when the setting is
   * off, else the download jobs, one per queued image, of the given kind.
   */
  function CappedDownloads(enabled: bool, images: seq<Image>, onDisk: OnDisk, amount: int, kind: ImageKind): (r: seq<Command>)
    ensures !enabled ==> r == []
    ensures forall i :: 0 <= i < |r| ==>
      r[i].ImageDownload? && r[i].kind == kind && exists img :: img in images && Missing(img, onDisk) && r[i].imageId == img.id
  {
    if !enabled then []
    else
      var queued := QueueMissing(images, onDisk, amount, CountPresent(images, onDisk, map[]));
      var r := seq(|queued|, i requires 0 <= i < |queued| => ImageDownload(queued[i].id, kind));
      assert forall i :: 0 <= i < |r| ==> r[i].imageId == queued[i].id && queued[i] in images && Missing(queued[i], onDisk);
      r
  }

  /**
   * With the setting on, the pass queues one download per image the cap lets
   * through, and each owner gets at most its room under the amount.
   */
  lemma CappedDownloadsPerOwner(images: seq<Image>, onDisk: OnDisk, amount: int, kind: ImageKind, owner: int)
    ensures var queued := QueueMissing(images, onDisk, amount, CountPresent(images, onDisk, map[]));
      && |CappedDownloads(true, images, onDisk, amount, kind)| == |queued|
      && (forall i :: 0 <= i < |queued| ==> CappedDownloads(true, images, onDisk, amount, kind)[i].imageId == queued[i].id)
      && |Filter(queued, (i: Image) => i.owner == owner)| <= Room(amount, |PresentOf(images, onDisk, owner)|)
  {
    CappedPassBound(images, onDisk, amount, owner);
  }

  /** How many more images of an owner the cap allows: `max(0, amount - have)`. */
  function Room(amount: int, have: int): nat {
    if amount > have then amount - have else 0
  }

  /** The first `n` elements, or all of them when there are fewer. */
  function Take<T>(s: seq<T>, n: nat): (r: seq<T>)
    ensures |r| == if n < |s| then n else |s|
  {
    if n < |s| then s[..n] else s
  }

  /**
   * The cap, exactly: for every owner the loop queues the first
   * `max(0, amount - count)` of its missing images, in list order.
   */
  lemma {:induction false} QueueMissingTakesFirst(images: seq<Image>, onDisk: OnDisk, amount: int, counts: map<int, int>, owner: int)
    decreases images
    ensures Filter(QueueMissing(images, onDisk, amount, counts), (i: Image) => i.owner == owner)
         == Take(MissingOf(images, onDisk, owner), Room(amount, Get(counts, owner)))
  {
    if images != [] {
      var img := images[0];
      if Missing(img, onDisk) && Get(counts, img.owner) < amount {
        QueueMissingTakesFirst(images[1..], onDisk, amount, Bump(counts, img.owner), owner);
        QueuedStep(images, onDisk, amount, counts, owner);
      } else {
        QueueMissingTakesFirst(images[1..], onDisk, amount, counts, owner);
        SkippedStep(images, onDisk, amount, counts, owner);
      }
    }
  }

  /** The step of the cap proof where the first image is queued. */
  lemma QueuedStep(images: seq<Image>, onDisk: OnDisk, amount: int, counts: map<int, int>, owner: int)
    requires images != [] && Missing(images[0], onDisk) && Get(counts, images[0].owner) < amount
    requires Filter(QueueMissing(images[1..], onDisk, amount, Bump(counts, images[0].owner)), (i: Image) => i.owner == owner)
         == Take(MissingOf(images[1..], onDisk, owner), Room(amount, Get(Bump(counts, images[0].owner), owner)))
    ensures Filter(QueueMissing(images, onDisk, amount, counts), (i: Image) => i.owner == owner)
         == Take(MissingOf(images, onDisk, owner), Room(amount, Get(counts, owner)))
  {
    var img := images[0];
    var rest := images[1..];
    var later := QueueMissing(rest, onDisk, amount, Bump(counts, img.owner));
    assert QueueMissing(images, onDisk, amount, counts) == [img] + later;
    FilterAppend([img], later, (i: Image) => i.owner == owner);
    MissingOfCons(images, onDisk, owner);
    if img.owner == owner {
      assert Get(Bump(counts, img.owner), owner) == Get(counts, owner) + 1;
      TakeCons(img, MissingOf(rest, onDisk, owner), Room(amount, Get(counts, owner)));
    } else {
      assert Get(Bump(counts, img.owner), owner) == Get(counts, owner);
    }
  }

  /** The missing images of an owner: the first image when it is one, then those of the rest. */
  lemma MissingOfCons(images: seq<Image>, onDisk: OnDisk, owner: int)
    requires images != []
    ensures MissingOf(images, onDisk, owner)
         == (if Missing(images[0], onDisk) && images[0].owner == owner then [images[0]] else []) + MissingOf(images[1..], onDisk, owner)
  {
  }

  /** The step of the cap proof where the first image is passed over. */
  lemma SkippedStep(images: seq<Image>, onDisk: OnDisk, amount: int, counts: map<int, int>, owner: int)
    requires images != [] && !(Missing(images[0], onDisk) && Get(counts, images[0].owner) < amount)
    requires Filter(QueueMissing(images[1..], onDisk, amount, counts), (i: Image) => i.owner == owner)
         == Take(MissingOf(images[1..], onDisk, owner), Room(amount, Get(counts, owner)))
    ensures Filter(QueueMissing(images, onDisk, amount, counts), (i: Image) => i.owner == owner)
         == Take(MissingOf(images, onDisk, owner), Room(amount, Get(counts, owner)))
  {
    var img := images[0];
    assert QueueMissing(images, onDisk, amount, counts) == QueueMissing(images[1..], onDisk, amount, counts);
    MissingOfCons(images, onDisk, owner);
    if Missing(img, onDisk) && img.owner == owner {
      assert Room(amount, Get(counts, owner)) == 0;
    }
  }

  lemma TakeCons<T>(x: T, s: seq<T>, n: nat)
    requires n > 0
    ensures Take([x] + s, n) == [x] + Take(s, n - 1)
  {
    if n - 1 < |s| {
      assert ([x] + s)[..n] == [x] + s[..n - 1];
    }
  }

  /**
   * The per-series cap of a whole pass: the downloads queued for an owner
   * number `min(missing, max(0, amount - present))`, so present plus queued
   * never exceeds the amount unless it already did.
   */
  lemma CappedPassBound(images: seq<Image>, onDisk: OnDisk, amount: int, owner: int)
    ensures var queued := QueueMissing(images, onDisk, amount, CountPresent(images, onDisk, map[]));
      var present := |PresentOf(images, onDisk, owner)|;
      var missing := |MissingOf(images, onDisk, owner)|;
      var mine := |Filter(queued, (i: Image) => i.owner == owner)|;
      && mine == (if Room(amount, present) < missing then Room(amount, present) else missing)
      && (present <= amount ==> present + mine <= amount)
  {
    var counts := CountPresent(images, onDisk, map[]);
    QueueMissingTakesFirst(images, onDisk, amount, counts, owner);
  }
}
