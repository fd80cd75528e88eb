/** Links between nodes as one, two or three bytes: `encode_links` of make_dafsa.py and
    `GetNextOffset` of lookup_string_in_fixed_set.cc. Places in the byte array are given by
    their distance to its end, so that they stay the same while the array grows at its front. */
module DafsaLinks {
  import opened DafsaGraph
  import opened DafsaBuild
  import opened DafsaTopSort

  const MAX_DISTANCE := 0x20_0000  // 1 << 21

  /** The byte `d` places before the end. */
  function ByteAt(image: seq<int>, d: nat): int
    requires 0 < d <= |image|
  {
    image[|image| - d]
  }

  lemma BytePrefixed(x: seq<int>, image: seq<int>, d: nat)
    requires 0 < d <= |image|
    ensures ByteAt(x + image, d) == ByteAt(image, d)
  {
  }

  ghost predicate Bytes(s: seq<int>) {
    forall k :: 0 <= k < |s| ==> 0 <= s[k] < 256
  }

  // Decoding

  /** How many bytes a link takes, by bits 5 and 6 of its first byte. */
  function LinkWidth(b: int): (w: nat)
    ensures 1 <= w <= 3
  {
    if b % 128 >= 0x60 then 3 else if b % 128 >= 0x40 then 2 else 1
  }

  /** The distance that the link at `d` encodes. */
  function LinkDistance(image: seq<int>, d: nat): int
    requires 0 < d <= |image| && LinkWidth(ByteAt(image, d)) <= d
  {
    var b := ByteAt(image, d);
    match LinkWidth(b)
    case 3 => b % 32 * 0x1_0000 + ByteAt(image, d - 1) * 0x100 + ByteAt(image, d - 2)
    case 2 => b % 32 * 0x100 + ByteAt(image, d - 1)
    case _ => b % 64
  }

  /** Bit 7 marks the last link of a node. */
  predicate LastLink(b: int) {
    b % 256 >= 0x80
  }

  /** The link bytes at `d`, read against `base`, name exactly `targets`, in this order, and end
      there. */
  ghost predicate LinksAt(image: seq<int>, d: nat, base: int, targets: seq<nat>)
    decreases |targets|
  {
    && |targets| > 0
    && 0 < d <= |image| && LinkWidth(ByteAt(image, d)) < d
    && base - LinkDistance(image, d) == targets[0]
    && if |targets| == 1 then LastLink(ByteAt(image, d))
       else !LastLink(ByteAt(image, d)) &&
            LinksAt(image, d - LinkWidth(ByteAt(image, d)), targets[0], targets[1..])
  }

  lemma {:induction false} LinksAtPrefixed(x: seq<int>, image: seq<int>, d: nat, base: int, targets: seq<nat>)
    requires LinksAt(image, d, base, targets)
    ensures LinksAt(x + image, d, base, targets)
    decreases |targets|
  {
    BytePrefixed(x, image, d);
    if |targets| > 1 {
      LinksAtPrefixed(x, image, d - LinkWidth(ByteAt(image, d)), targets[0], targets[1..]);
    }
  }

  // Encoding

  ghost predicate InRange(distance: int) {
    0 < distance < MAX_DISTANCE
  }

  /** "s0xxxxxx", "s10xxxxxxxxxxxxx" or "s11xxxxxxxxxxxxxxxxxxxxx", without the sign bit. */
  function LinkBytes(distance: int): (bytes: seq<int>)
  {
    if distance < 0x40 then [distance]
    else if distance < 0x2000 then [0x40 + distance / 0x100, distance % 0x100]
    else [0x60 + distance / 0x1_0000, distance / 0x100 % 0x100, distance % 0x100]
  }

  /** One byte for a distance below 2^6, two below 2^13, and three for any other; the range of distances is
      what three bytes hold in front of the sign bit. */
  lemma WidthOfLink(distance: int)
    requires distance > 0
    ensures |LinkBytes(distance)| == if distance < 64 then 1 else if distance < 8192 then 2 else 3
    ensures distance < MAX_DISTANCE <==> LinkBytes(distance)[0] < 0x80
  {
  }

  /** The bits that the first byte begins with say the width, and the others, most significant first, spell
      the distance. */
  lemma FormOfLink(distance: int)
    requires 0 < distance < MAX_DISTANCE
    ensures var b := LinkBytes(distance);
            match |b|
            case 1 => b[0] / 64 == 0 && b[0] % 64 == distance
            case 2 => b[0] / 32 == 2 && b[0] % 32 * 256 + b[1] == distance && 0 <= b[1] < 256
            case _ => b[0] / 32 == 3 && (b[0] % 32 * 256 + b[1]) * 256 + b[2] == distance && 0 <= b[1] < 256 && 0 <= b[2] < 256
  {
    if distance >= 8192 {
      ThreeByteForm(distance);
    }
  }

  lemma ThreeByteForm(distance: int)
    requires 8192 <= distance < MAX_DISTANCE
    ensures var b := LinkBytes(distance);
            b[0] / 32 == 3 && (b[0] % 32 * 256 + b[1]) * 256 + b[2] == distance && 0 <= b[1] < 256 && 0 <= b[2] < 256
  {
    var high := distance / 0x1_0000;
    assert distance / 0x100 == high * 0x100 + distance / 0x100 % 0x100;
    assert (0x60 + high) % 32 == high && (0x60 + high) / 32 == 3;
  }

  /** The distances from `start` to each of `offsets` in turn. */
  ghost function Distances(start: int, offsets: seq<nat>): (ds: seq<int>)
    ensures |ds| == |offsets|
    decreases |offsets|
  {
    if offsets == [] then [] else [start - offsets[0]] + Distances(offsets[0], offsets[1..])
  }

  ghost function Plain(ds: seq<int>): seq<int> {
    if ds == [] then [] else LinkBytes(ds[0]) + Plain(ds[1..])
  }

  /** The links of one node, with the sign bit on the last of them. */
  ghost function Flagged(ds: seq<int>): seq<int>
    requires |ds| > 0
  {
    var bytes := LinkBytes(ds[0]);
    if |ds| == 1 then Flag(bytes, true) else bytes + Flagged(ds[1..])
  }

  lemma {:induction false} PlainAppend(ds: seq<int>, d: int)
    ensures Plain(ds + [d]) == Plain(ds) + LinkBytes(d)
  {
    var all := ds + [d];
    if ds == [] {
      assert all[1..] == [] && Plain(all) == LinkBytes(all[0]) + [];
    } else {
      PlainAppend(ds[1..], d);
      assert all[1..] == ds[1..] + [d] && all[0] == ds[0];
      assert Plain(all) == LinkBytes(ds[0]) + (Plain(ds[1..]) + LinkBytes(d));
    }
  }

  lemma {:induction false} FlaggedIsPlain(ds: seq<int>)
    requires |ds| > 0
    ensures var last := |Plain(ds[..|ds| - 1])|;
            last < |Plain(ds)| && Flagged(ds) == Plain(ds)[last := Plain(ds)[last] + 0x80]
  {
    if |ds| == 1 {
      assert Plain(ds[1..]) == [] && ds[..0] == [];
    } else {
      var tail := Plain(ds[1..]);
      var last := |Plain(ds[1..][..|ds| - 2])|;
      FlaggedIsPlain(ds[1..]);
      assert ds[..|ds| - 1][1..] == ds[1..][..|ds| - 2];
      assert LinkBytes(ds[0]) + tail[last := tail[last] + 0x80]
          == (LinkBytes(ds[0]) + tail)[|LinkBytes(ds[0])| + last := tail[last] + 0x80];
    }
  }

  lemma SplitBytes(d: int)
    requires 0 <= d < MAX_DISTANCE
    ensures d / 0x1_0000 * 0x1_0000 + d / 0x100 % 0x100 * 0x100 + d % 0x100 == d
    ensures 0 <= d / 0x1_0000 < 32 && (d < 0x2000 ==> 0 <= d / 0x100 < 32 && d / 0x100 * 0x100 + d % 0x100 == d)
  {
  }

  /** The first byte tells the width, the high part of the distance, and whether this is the end. */
  lemma FirstByte(high: int, flag: bool)
    requires 0 <= high < 32
    ensures var b := 0x60 + high + (if flag then 0x80 else 0);
            LinkWidth(b) == 3 && b % 32 == high && (LastLink(b) <==> flag)
    ensures var b := 0x40 + high + (if flag then 0x80 else 0);
            LinkWidth(b) == 2 && b % 32 == high && (LastLink(b) <==> flag)
  {
  }

  lemma OnlyByte(low: int, flag: bool)
    requires 0 <= low < 64
    ensures var b := low + (if flag then 0x80 else 0);
            LinkWidth(b) == 1 && b % 64 == low && (LastLink(b) <==> flag)
  {
  }

  function Flag(bytes: seq<int>, flag: bool): seq<int>
    requires |bytes| > 0
  {
    bytes[0 := bytes[0] + if flag then 0x80 else 0]
  }

  lemma LinkBytesRead(distance: int, rest: seq<int>, flag: bool)
    requires InRange(distance) && |rest| > 0
    ensures var bytes := LinkBytes(distance);
            var image := Flag(bytes, flag) + rest;
            var d := |image|;
            && LinkWidth(ByteAt(image, d)) == |bytes| < d
            && LinkDistance(image, d) == distance
            && (LastLink(ByteAt(image, d)) <==> flag)
  {
    var bytes := LinkBytes(distance);
    var image := Flag(bytes, flag) + rest;
    assert ByteAt(image, |image|) == bytes[0] + if flag then 0x80 else 0;
    assert |bytes| > 1 ==> ByteAt(image, |image| - 1) == bytes[1];
    assert |bytes| > 2 ==> ByteAt(image, |image| - 2) == bytes[2];
    SplitBytes(distance);
    if distance < 0x40 {
      OnlyByte(distance, flag);
    } else if distance < 0x2000 {
      FirstByte(distance / 0x100, flag);
    } else {
      FirstByte(distance / 0x1_0000, flag);
    }
  }

  /** Reading what was written gives the children back, in order, and stops after the last. */
  lemma {:induction false} FlaggedReads(base: int, offsets: seq<nat>, rest: seq<int>)
    requires |offsets| > 0 && |rest| > 0
    requires forall k :: 0 <= k < |offsets| ==> InRange(Distances(base, offsets)[k])
    ensures var bytes := Flagged(Distances(base, offsets));
            LinksAt(bytes + rest, |bytes + rest|, base, offsets)
    decreases |offsets|
  {
    var ds := Distances(base, offsets);
    var bytes := LinkBytes(ds[0]);
    if |offsets| == 1 {
      LinkBytesRead(ds[0], rest, true);
    } else {
      var tail := Flagged(ds[1..]);
      assert ds[1..] == Distances(offsets[0], offsets[1..]);
      forall k | 0 <= k < |offsets| - 1 ensures InRange(Distances(offsets[0], offsets[1..])[k]) {
        assert ds[1..][k] == ds[k + 1];
      }
      FlaggedReads(offsets[0], offsets[1..], rest);
      LinkBytesRead(ds[0], tail + rest, false);
      assert Flag(bytes, false) == bytes;
      assert Flagged(ds) + rest == bytes + (tail + rest);
      LinksAtPrefixed(bytes, tail + rest, |tail + rest|, offsets[0], offsets[1..]);
    }
  }

  lemma {:induction false} FlaggedBytes(ds: seq<int>)
    requires |ds| > 0 && forall k :: 0 <= k < |ds| ==> InRange(ds[k])
    ensures Bytes(Flagged(ds))
  {
    if |ds| > 1 {
      FlaggedBytes(ds[1..]);
    }
  }

  // The width-guessing loop

  lemma {:induction false} DistanceAt(start: int, offsets: seq<nat>, k: nat)
    requires k < |offsets|
    ensures Distances(start, offsets)[k] == (if k == 0 then start else offsets[k - 1]) - offsets[k]
    decreases k
  {
    if k > 0 {
      DistanceAt(offsets[0], offsets[1..], k - 1);
    }
  }

  lemma {:induction false} PlainAtMost(ds: seq<int>)
    ensures |ds| <= |Plain(ds)| <= 3 * |ds|
  {
    if ds != [] {
      PlainAtMost(ds[1..]);
    }
  }

  /** Starting nearer, the links take no more bytes. */
  lemma PlainMonotone(near: int, far: int, offsets: seq<nat>)
    requires near <= far && |offsets| > 0
    ensures |Plain(Distances(near, offsets))| <= |Plain(Distances(far, offsets))|
  {
    assert Distances(near, offsets)[1..] == Distances(far, offsets)[1..];
  }

  ghost predicate AllInRange(ds: seq<int>) {
    forall k :: 0 <= k < |ds| ==> InRange(ds[k])
  }

  /** Starting nearer, but not before the first target, keeps every distance in range. */
  lemma NearerInRange(near: int, far: int, offsets: seq<nat>)
    requires |offsets| > 0 && offsets[0] < near <= far && AllInRange(Distances(far, offsets))
    ensures AllInRange(Distances(near, offsets))
  {
    forall k | 0 <= k < |offsets| ensures InRange(Distances(near, offsets)[k]) {
      DistanceAt(near, offsets, k);
      DistanceAt(far, offsets, k);
      assert InRange(Distances(far, offsets)[k]);
    }
  }

  /** `buf` holds the links from `start`, the last of them from index `last`. */
  ghost predicate Written(offsets: seq<nat>, start: int, buf: seq<int>, last: nat)
    requires |offsets| > 0
  {
    var ds := Distances(start, offsets);
    AllInRange(ds) && buf == Plain(ds) && last == |Plain(ds[..|ds| - 1])|
  }

  /** One round of the loop: the links for one guess of their total width. */
  method EncodeRound(offsets: seq<nat>, start: int) returns (r: Result<seq<int>>, last: nat)
    requires |offsets| > 0
    ensures r.Ok? <==> AllInRange(Distances(start, offsets))
    ensures r.Ok? ==> Written(offsets, start, r.value, last)
    ensures r.Err? ==> r.error == BadDistance
  {
    var offset := start;
    var buf := [];
    last := 0;
    ghost var ds := Distances(start, offsets);
    for k := 0 to |offsets|
      invariant offset == if k == 0 then start else offsets[k - 1]
      invariant buf == Plain(ds[..k])
      invariant k > 0 ==> last == |Plain(ds[..k - 1])|
      invariant forall b :: 0 <= b < k ==> InRange(ds[b])
    {
      last := |buf|;
      var distance := offset - offsets[k];
      DistanceAt(start, offsets, k);
      if !(0 < distance < MAX_DISTANCE) {
        return Err(BadDistance), last;
      }
      PlainAppend(ds[..k], distance);
      assert ds[..k + 1] == ds[..k] + [distance];
      buf := buf + LinkBytes(distance);
      offset := offset - distance;
    }
    assert ds[..|offsets|] == ds;
    r := Ok(buf);
  }

  /** The finished links from `start` to `offsets`. */
  ghost predicate LinksFor(offsets: seq<nat>, start: int, links: seq<int>)
    requires |offsets| > 0
  {
    AllInRange(Distances(start, offsets)) && links == Flagged(Distances(start, offsets))
  }

  lemma Finished(offsets: seq<nat>, start: int, buf: seq<int>, last: nat)
    requires |offsets| > 0 && Written(offsets, start, buf, last)
    ensures last < |buf| && LinksFor(offsets, start, buf[last := buf[last] + 0x80])
  {
    FlaggedIsPlain(Distances(start, offsets));
  }

  /** The width that the guesses come down to. */
  ghost function Fitted(offsets: seq<nat>, current: nat, guess: nat): nat {
    var width := |Plain(Distances(current + guess, offsets))|;
    if width < guess then Fitted(offsets, current, width) else guess
  }

  /** The links for a guess fit it, and the guesses go on from there. */
  ghost predicate Guessed(offsets: seq<nat>, current: nat, guess: nat, buf: seq<int>, last: nat)
    requires |offsets| > 0
  {
    && Written(offsets, current + guess, buf, last) && |buf| <= guess <= 3 * |offsets|
    && Fitted(offsets, current, 3 * |offsets|) == Fitted(offsets, current, guess)
  }

  /** The next guess is smaller, its links are in range too and fit it again. */
  lemma NextGuess(offsets: seq<nat>, current: nat, guess: nat, buf: seq<int>, last: nat)
    requires |offsets| > 0 && offsets[0] <= current && Guessed(offsets, current, guess, buf, last) && |buf| != guess
    ensures 0 < |buf| && AllInRange(Distances(current + |buf|, offsets))
    ensures |Plain(Distances(current + |buf|, offsets))| <= |buf|
    ensures Fitted(offsets, current, 3 * |offsets|) == Fitted(offsets, current, |buf|)
  {
    PlainAtMost(Distances(current + guess, offsets));
    NearerInRange(current + |buf|, current + guess, offsets);
    PlainMonotone(current + |buf|, current + guess, offsets);
  }

  lemma WidthFits(offsets: seq<nat>, current: nat, guess: nat, buf: seq<int>, last: nat)
    requires |offsets| > 0 && Guessed(offsets, current, guess, buf, last) && |buf| == guess
    ensures |buf| == Fitted(offsets, current, 3 * |offsets|)
  {
  }

  method GuessAgain(offsets: seq<nat>, current: nat, guess: nat, buf: seq<int>, ghost last: nat)
      returns (next: nat, links: seq<int>, end: nat)
    requires |offsets| > 0 && offsets[0] <= current && Guessed(offsets, current, guess, buf, last) && |buf| != guess
    ensures next < guess && Guessed(offsets, current, next, links, end)
  {
    NextGuess(offsets, current, guess, buf, last);
    next := |buf|;
    var r;
    r, end := EncodeRound(offsets, current + next);
    links := r.value;
  }

  /** Guesses the total width, from three bytes a link downwards, until the links fit it. */
  method FitWidth(offsets: seq<nat>, current: nat) returns (r: Result<seq<int>>, last: nat)
    requires |offsets| > 0 && offsets[0] <= current
    ensures r.Ok? <==> AllInRange(Distances(current + 3 * |offsets|, offsets))
    ensures r.Ok? ==> Written(offsets, current + |r.value|, r.value, last) && |r.value| <= 3 * |offsets|
    ensures r.Ok? ==> |r.value| == Fitted(offsets, current, 3 * |offsets|)
    ensures r.Err? ==> r.error == BadDistance
  {
    var guess: nat := 3 * |offsets|;
    PlainAtMost(Distances(current + guess, offsets));
    r, last := EncodeRound(offsets, current + guess);
    if r.Ok? {
      while |r.value| != guess
        invariant r.Ok? && Guessed(offsets, current, guess, r.value, last)
        decreases guess
      {
        var buf;
        guess, buf, last := GuessAgain(offsets, current, guess, r.value, last);
        r := Ok(buf);
      }
      WidthFits(offsets, current, guess, r.value, last);
    }
  }

  /** Marks the end of the links. */
  method EncodeOffsets(offsets: seq<nat>, current: nat) returns (r: Result<seq<int>>)
    requires |offsets| > 0 && offsets[0] <= current
    ensures r.Ok? <==> AllInRange(Distances(current + 3 * |offsets|, offsets))
    ensures r.Ok? ==> LinksFor(offsets, current + |r.value|, r.value) && |r.value| <= 3 * |offsets|
    ensures r.Ok? ==> |r.value| == Fitted(offsets, current, 3 * |offsets|)
    ensures r.Err? ==> r.error == BadDistance
  {
    var buf, last := FitWidth(offsets, current);
    if buf.Err? {
      return buf;
    }
    Finished(offsets, current + |buf.value|, buf.value, last);
    var links := buf.value[last := buf.value[last] + 0x80];
    r := Ok(links);
  }

  // Children in address order

  /** Each child is a node with a known offset. */
  ghost predicate Placed(children: seq<Ref>, offsets: map<nat, nat>) {
    forall c :: c in children ==> c.To? && c.id in offsets
  }

  function OffsetOf(c: Ref, offsets: map<nat, nat>): nat {
    if c.To? && c.id in offsets then offsets[c.id] else 0
  }

  function OffsetsOf(children: seq<Ref>, offsets: map<nat, nat>): (r: seq<nat>)
    ensures |r| == |children|
    ensures forall k :: 0 <= k < |children| ==> r[k] == OffsetOf(children[k], offsets)
  {
    seq(|children|, k requires 0 <= k < |children| => OffsetOf(children[k], offsets))
  }

  ghost predicate Descending(children: seq<Ref>, offsets: map<nat, nat>) {
    forall a, b :: 0 <= a < b < |children| ==> OffsetOf(children[a], offsets) >= OffsetOf(children[b], offsets)
  }

  lemma InsertedDescending(sorted: seq<Ref>, k: nat, c: Ref, offsets: map<nat, nat>)
    requires Descending(sorted, offsets) && k <= |sorted|
    requires forall a :: 0 <= a < k ==> OffsetOf(sorted[a], offsets) >= OffsetOf(c, offsets)
    requires k < |sorted| ==> OffsetOf(sorted[k], offsets) < OffsetOf(c, offsets)
    ensures Descending(sorted[..k] + [c] + sorted[k..], offsets)
    ensures multiset(sorted[..k] + [c] + sorted[k..]) == multiset(sorted) + multiset{c}
  {
    assert sorted == sorted[..k] + sorted[k..];
    assert k < |sorted| ==> forall a :: k <= a < |sorted| ==> OffsetOf(sorted[a], offsets) <= OffsetOf(sorted[k], offsets);
  }

  /** Puts a child behind those that are not farther away. */
  function Inserted(sorted: seq<Ref>, c: Ref, offsets: map<nat, nat>): seq<Ref> {
    if sorted == [] || OffsetOf(sorted[0], offsets) < OffsetOf(c, offsets) then [c] + sorted
    else [sorted[0]] + Inserted(sorted[1..], c, offsets)
  }

  /** The children, those with the largest offset, which are nearest in memory, first. */
  function ByOffset(children: seq<Ref>, offsets: map<nat, nat>): seq<Ref> {
    if children == [] then [] else Inserted(ByOffset(children[..|children| - 1], offsets), children[|children| - 1], offsets)
  }

  lemma {:induction false} InsertedAt(sorted: seq<Ref>, k: nat, c: Ref, offsets: map<nat, nat>)
    requires k <= |sorted| && forall a :: 0 <= a < k ==> OffsetOf(sorted[a], offsets) >= OffsetOf(c, offsets)
    requires k < |sorted| ==> OffsetOf(sorted[k], offsets) < OffsetOf(c, offsets)
    ensures Inserted(sorted, c, offsets) == sorted[..k] + [c] + sorted[k..]
    decreases k
  {
    if k > 0 {
      InsertedAt(sorted[1..], k - 1, c, offsets);
      assert sorted[..k] == [sorted[0]] + sorted[1..][..k - 1];
    }
  }

  method InsertByOffset(sorted: seq<Ref>, c: Ref, offsets: map<nat, nat>) returns (r: seq<Ref>)
    ensures r == Inserted(sorted, c, offsets)
  {
    var k := 0;
    while k < |sorted| && OffsetOf(sorted[k], offsets) >= OffsetOf(c, offsets)
      invariant k <= |sorted|
      invariant forall a :: 0 <= a < k ==> OffsetOf(sorted[a], offsets) >= OffsetOf(c, offsets)
    {
      k := k + 1;
    }
    InsertedAt(sorted, k, c, offsets);
    r := sorted[..k] + [c] + sorted[k..];
  }

  method SortByOffset(children: seq<Ref>, offsets: map<nat, nat>) returns (sorted: seq<Ref>)
    ensures multiset(sorted) == multiset(children) && Descending(sorted, offsets)
    ensures sorted == ByOffset(children, offsets)
  {
    sorted := [];
    for n := 0 to |children|
      invariant sorted == ByOffset(children[..n], offsets)
    {
      sorted := InsertByOffset(sorted, children[n], offsets);
      ByOffsetAppend(children[..n], children[n], offsets);
      assert children[..n + 1] == children[..n] + [children[n]];
    }
    assert children[..|children|] == children;
    ByOffsetSorts(children, offsets);
  }

  lemma ByOffsetAppend(children: seq<Ref>, c: Ref, offsets: map<nat, nat>)
    ensures ByOffset(children + [c], offsets) == Inserted(ByOffset(children, offsets), c, offsets)
  {
    assert (children + [c])[..|children|] == children;
  }

  lemma {:induction false} PlaceFor(sorted: seq<Ref>, c: Ref, offsets: map<nat, nat>) returns (k: nat)
    ensures k <= |sorted| && forall a :: 0 <= a < k ==> OffsetOf(sorted[a], offsets) >= OffsetOf(c, offsets)
    ensures k < |sorted| ==> OffsetOf(sorted[k], offsets) < OffsetOf(c, offsets)
  {
    if sorted == [] || OffsetOf(sorted[0], offsets) < OffsetOf(c, offsets) {
      k := 0;
    } else {
      k := PlaceFor(sorted[1..], c, offsets);
      k := k + 1;
    }
  }

  /** The same children, by descending offset. */
  lemma {:induction false} ByOffsetSorts(children: seq<Ref>, offsets: map<nat, nat>)
    ensures multiset(ByOffset(children, offsets)) == multiset(children) && Descending(ByOffset(children, offsets), offsets)
  {
    if children != [] {
      var rest, c := children[..|children| - 1], children[|children| - 1];
      ByOffsetSorts(rest, offsets);
      InsertedSorts(ByOffset(rest, offsets), c, offsets);
      assert children == rest + [c];
    }
  }

  lemma InsertedSorts(sorted: seq<Ref>, c: Ref, offsets: map<nat, nat>)
    requires Descending(sorted, offsets)
    ensures multiset(Inserted(sorted, c, offsets)) == multiset(sorted) + multiset{c}
    ensures Descending(Inserted(sorted, c, offsets), offsets)
  {
    var k := PlaceFor(sorted, c, offsets);
    InsertedDescending(sorted, k, c, offsets);
    InsertedAt(sorted, k, c, offsets);
  }

  lemma SameElements<T>(a: seq<T>, b: seq<T>, x: T)
    requires multiset(a) == multiset(b)
    ensures x in a <==> x in b
    ensures |a| == |b|
  {
    assert x in a <==> x in multiset(a);
    assert x in b <==> x in multiset(b);
    assert |multiset(a)| == |a| && |multiset(b)| == |b|;
  }

  /** Every node was written at its own place, all within the first `current` bytes. */
  ghost predicate Offsets(offsets: map<nat, nat>, current: nat) {
    && (forall i :: i in offsets ==> 0 < offsets[i] <= current)
    && (forall i, j :: i in offsets && j in offsets && offsets[i] == offsets[j] ==> i == j)
  }

  /** `sorted` lists the children by their places. */
  ghost predicate InOrder(children: seq<Ref>, sorted: seq<Ref>, offsets: map<nat, nat>) {
    multiset(sorted) == multiset(children) && Descending(sorted, offsets) && Placed(children, offsets)
  }

  /** No distance is ever zero or negative: only its size can be wrong. */
  lemma DistancesPositive(children: seq<Ref>, sorted: seq<Ref>, offsets: map<nat, nat>, current: nat, start: int)
    requires Offsets(offsets, current) && InOrder(children, sorted, offsets) && Distinct(children) && start > current
    ensures var ds := Distances(start, OffsetsOf(sorted, offsets));
            forall k :: 0 <= k < |ds| ==> 0 < ds[k] <= start
  {
    var ds := Distances(start, OffsetsOf(sorted, offsets));
    forall k | 0 <= k < |ds| ensures 0 < ds[k] <= start {
      SameElements(children, sorted, sorted[k]);
      DistanceAt(start, OffsetsOf(sorted, offsets), k);
      if k > 0 {
        SameElements(children, sorted, sorted[k - 1]);
        DistinctSorted(children, sorted, k - 1, k);
      }
    }
  }

  lemma DistinctSorted<T>(children: seq<T>, sorted: seq<T>, a: nat, b: nat)
    requires Distinct(children) && multiset(sorted) == multiset(children) && a < b < |sorted|
    ensures sorted[a] != sorted[b]
  {
    if sorted[a] == sorted[b] {
      Twice(sorted, a, b);
      NotTwice(children, sorted[a]);
    }
  }

  lemma TooLong(children: seq<Ref>, sorted: seq<Ref>, offsets: map<nat, nat>, current: nat, start: int)
    requires Offsets(offsets, current) && InOrder(children, sorted, offsets) && Distinct(children) && start > current
    requires !AllInRange(Distances(start, OffsetsOf(sorted, offsets)))
    ensures start >= MAX_DISTANCE
  {
    DistancesPositive(children, sorted, offsets, current, start);
  }

  /** The offsets that the links of these children name, in the order in which they are written. */
  ghost function LinkOffsets(children: seq<Ref>, offsets: map<nat, nat>): seq<nat> {
    OffsetsOf(ByOffset(children, offsets), offsets)
  }

  /** Written behind `current` bytes, with three bytes allowed for each link, all links are in range. */
  ghost predicate Reach(children: seq<Ref>, offsets: map<nat, nat>, current: nat) {
    children != [] && children[0].To? ==> AllInRange(Distances(current + 3 * |children|, LinkOffsets(children, offsets)))
  }

  /** The bytes of the links: none in front of the sink. */
  ghost function LinkList(children: seq<Ref>, offsets: map<nat, nat>, current: nat): seq<int> {
    var os := LinkOffsets(children, offsets);
    if children == [] || children[0].Sink? || os == [] then []
    else Flagged(Distances(current + Fitted(os, current, 3 * |os|), os))
  }

  /** Links take at most three bytes each. */
  lemma LinkListLength(children: seq<Ref>, offsets: map<nat, nat>, current: nat)
    ensures |LinkList(children, offsets, current)| <= 3 * |children|
  {
    var os := LinkOffsets(children, offsets);
    ByOffsetSorts(children, offsets);
    assert |multiset(ByOffset(children, offsets))| == |multiset(children)|;
    if os != [] {
      FlaggedLength(Distances(current + Fitted(os, current, 3 * |os|), os));
    }
  }

  lemma FlaggedLength(ds: seq<int>)
    requires |ds| > 0
    ensures |Flagged(ds)| <= 3 * |ds|
  {
    PlainAtMost(ds);
    FlaggedIsPlain(ds);
  }

  /** Among few bytes all links reach. */
  lemma NearReaches(children: seq<Ref>, offsets: map<nat, nat>, current: nat)
    requires |children| > 0 && Offsets(offsets, current) && current + 3 * |children| < MAX_DISTANCE
    requires children[0].To? ==> Placed(children, offsets) && Distinct(children)
    ensures Reach(children, offsets, current)
  {
    if children[0].To? && !Reach(children, offsets, current) {
      ByOffsetSorts(children, offsets);
      TooLong(children, ByOffset(children, offsets), offsets, current, current + 3 * |children|);
    }
  }

  /** Encodes a list of children; the links come in memory order. */
  method EncodeLinks(children: seq<Ref>, offsets: map<nat, nat>, current: nat)
      returns (r: Result<seq<int>>, ghost sorted: seq<Ref>)
    requires |children| > 0 && Offsets(offsets, current)
    requires children[0].To? ==> Placed(children, offsets) && Distinct(children)
    ensures children[0].Sink? ==> r == if |children| == 1 then Ok([]) else Err(AssertionFailed)
    ensures children[0].To? ==> InOrder(children, sorted, offsets) && |sorted| > 0 && sorted == ByOffset(children, offsets)
    ensures children[0].To? ==> (r.Ok? <==> Reach(children, offsets, current))
    ensures children[0].To? && r.Err? ==> r.error == BadDistance && current + 3 * |children| >= MAX_DISTANCE
    ensures children[0].To? && r.Ok? ==> LinksFor(OffsetsOf(sorted, offsets), current + |r.value|, r.value)
    ensures r.Ok? ==> r.value == LinkList(children, offsets, current) && |r.value| <= 3 * |children|
  {
    sorted := [];
    if children[0].Sink? {
      r := if |children| == 1 then Ok([]) else Err(AssertionFailed);
      return;
    }
    r, sorted := EncodeTargets(children, offsets, current);
  }

  lemma InOrderOf(children: seq<Ref>, offsets: map<nat, nat>, current: nat)
    requires |children| > 0 && Offsets(offsets, current) && Placed(children, offsets)
    ensures var sorted := ByOffset(children, offsets);
            InOrder(children, sorted, offsets) && |sorted| == |children| && OffsetsOf(sorted, offsets)[0] <= current
  {
    var sorted := ByOffset(children, offsets);
    ByOffsetSorts(children, offsets);
    SameElements(children, sorted, children[0]);
    SameElements(children, sorted, sorted[0]);
  }

  method EncodeTargets(children: seq<Ref>, offsets: map<nat, nat>, current: nat)
      returns (r: Result<seq<int>>, ghost sorted: seq<Ref>)
    requires |children| > 0 && Offsets(offsets, current) && children[0].To? && Placed(children, offsets) && Distinct(children)
    ensures InOrder(children, sorted, offsets) && |sorted| > 0 && sorted == ByOffset(children, offsets)
    ensures r.Ok? <==> Reach(children, offsets, current)
    ensures r.Err? ==> r.error == BadDistance && current + 3 * |children| >= MAX_DISTANCE
    ensures r.Ok? ==> LinksFor(OffsetsOf(sorted, offsets), current + |r.value|, r.value)
    ensures r.Ok? ==> r.value == LinkList(children, offsets, current) && |r.value| <= 3 * |children|
  {
    var inOrder := SortByOffset(children, offsets);
    sorted := inOrder;
    InOrderOf(children, offsets, current);
    r := EncodeOffsets(OffsetsOf(inOrder, offsets), current);
    if r.Err? {
      TooLong(children, inOrder, offsets, current, current + 3 * |children|);
    }
  }
}
