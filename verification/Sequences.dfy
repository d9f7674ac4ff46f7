/** Items written one behind the other and read one behind the other, whatever the items are. */
module Sequences {
  import opened Wire
  import opened Compression
  import opened TableSoundness
  import opened Records
  import opened RecordRoundTrip

  type Encoder<!T> = (T, nat, Table) -> Encoded
  type Decoder<T> = (bytes, nat) -> Result<Decoded<T>>

  datatype Items<+T> = Items(items: T, end: nat)

  function EncodeItems<T>(enc: Encoder<T>, xs: seq<T>, pos: nat, t: Table): Encoded {
    if xs == [] then Encoded(Ok([]), t)
    else
      var e := enc(xs[0], pos, t);
      if e.out.Err? then e
      else Prefixed(e.out.value, EncodeItems(enc, xs[1..], pos + |e.out.value|, e.table))
  }

  function ReadItems<T>(dec: Decoder<T>, m: bytes, off: nat, n: nat): Result<Items<seq<T>>>
    decreases n
  {
    if n == 0 then Ok(Items([], off))
    else
      match dec(m, off)
      case Err(e) => Err(e)
      case Ok(x) =>
        match ReadItems(dec, m, x.end, n - 1)
        case Err(e) => Err(e)
        case Ok(rest) => Ok(Items([x.item] + rest.items, rest.end))
  }

  lemma FirstItemRead<T>(dec: Decoder<T>, m: bytes, off: nat, n: nat)
    requires n > 0 && ReadItems(dec, m, off, n).Ok?
    ensures var x := dec(m, off);
      x.Ok? && ReadItems(dec, m, x.value.end, n - 1).Ok?
      && ReadItems(dec, m, off, n).value.end == ReadItems(dec, m, x.value.end, n - 1).value.end
  {
  }

  /** The same, with names for what follows. */
  lemma OthersRead<T>(dec: Decoder<T>, m: bytes, off: nat, n: nat, next: nat, k: nat)
    requires n == k + 1 && ReadItems(dec, m, off, n).Ok? && (dec(m, off).Ok? ==> dec(m, off).value.end == next)
    ensures ReadItems(dec, m, next, k).Ok? && ReadItems(dec, m, next, k).value.end == ReadItems(dec, m, off, n).value.end
  {
    FirstItemRead(dec, m, off, n);
  }

  /** How an item of one kind is written, read, within reach, and what it is read as. */
  datatype Kind<!T> = Kind(
    enc: Encoder<T>, dec: Decoder<T>, ghost readable: (bytes, T, nat, Table) -> bool, ghost filled: (T, nat, Table) -> T)

  /** The law of one item: it is read back or the pointer limit is hit, and the table stays sound. */
  ghost predicate ItemLaw<T>(k: Kind<T>, m: bytes, x: T, pos: nat, t: Table, w: bytes) {
    TableSound(m, t) && Written(m, pos, k.enc(x, pos, t), w) ==>
      && TableSound(m, k.enc(x, pos, t).table)
      && var r := k.dec(m, pos);
         if k.readable(m, x, pos, t) then r == Ok(ItemEnd(k.filled(x, pos, t), pos + |w|))
         else r == Err(TooManyPtr)
  }

  ghost predicate Lawful<T(!new)>(k: Kind<T>, m: bytes, xs: seq<T>) {
    forall x, pos, t, w {:trigger ItemLaw(k, m, x, pos, t, w)} :: x in xs ==> ItemLaw(k, m, x, pos, t, w)
  }

  /** Every item is within reach at its place. */
  ghost predicate AllReadable<T>(k: Kind<T>, m: bytes, xs: seq<T>, pos: nat, t: Table) {
    xs == [] ||
    var e := k.enc(xs[0], pos, t);
    k.readable(m, xs[0], pos, t) && (e.out.Ok? ==> AllReadable(k, m, xs[1..], pos + |e.out.value|, e.table))
  }

  /** All items as they are read, each at its place. */
  ghost function AllFilled<T>(k: Kind<T>, xs: seq<T>, pos: nat, t: Table): seq<T> {
    if xs == [] then []
    else
      var e := k.enc(xs[0], pos, t);
      [k.filled(xs[0], pos, t)] + if e.out.Ok? then AllFilled(k, xs[1..], pos + |e.out.value|, e.table) else []
  }

  /** What reading a section yields: all its items and its end, or the pointer limit. */
  ghost predicate SectionReads<T>(k: Kind<T>, m: bytes, pos: nat, n: nat, items: seq<T>, readable: bool, end: nat) {
    ReadItems(k.dec, m, pos, n) == if readable then Ok(Items(items, end)) else Err(TooManyPtr)
  }

  lemma FirstItem<T>(enc: Encoder<T>, m: bytes, pos: nat, xs: seq<T>, t: Table, w: bytes)
    returns (first: bytes, t1: Table, rest: bytes)
    requires xs != [] && Written(m, pos, EncodeItems(enc, xs, pos, t), w)
    ensures enc(xs[0], pos, t) == Encoded(Ok(first), t1) && At(m, pos, first)
    ensures EncodeItems(enc, xs[1..], pos + |first|, t1) == Encoded(Ok(rest), EncodeItems(enc, xs, pos, t).table)
    ensures At(m, pos + |first|, rest) && |w| == |first| + |rest|
  {
    var e := enc(xs[0], pos, t);
    first, t1 := e.out.value, e.table;
    rest := EncodeItems(enc, xs[1..], pos + |first|, t1).out.value;
    AtParts(m, pos, first, rest);
  }

  lemma {:induction false} ItemsReadBack<T(!new)>(k: Kind<T>, m: bytes, pos: nat, xs: seq<T>, t: Table, w: bytes, end: nat)
    requires TableSound(m, t) && Lawful(k, m, xs)
    requires Written(m, pos, EncodeItems(k.enc, xs, pos, t), w) && end == pos + |w|
    ensures SectionReads(k, m, pos, |xs|, AllFilled(k, xs, pos, t), AllReadable(k, m, xs, pos, t), end)
    ensures TableSound(m, EncodeItems(k.enc, xs, pos, t).table)
    decreases |xs|
  {
    if xs != [] {
      var first, t1, rest := FirstItem(k.enc, m, pos, xs, t, w);
      assert ItemLaw(k, m, xs[0], pos, t, first);
      ItemsReadBack(k, m, pos + |first|, xs[1..], t1, rest, end);
      OneMore(k, m, pos, |xs|, k.filled(xs[0], pos, t), AllFilled(k, xs[1..], pos + |first|, t1), pos + |first|,
              k.readable(m, xs[0], pos, t), AllReadable(k, m, xs[1..], pos + |first|, t1), end);
    }
  }

  lemma OneMore<T>(k: Kind<T>, m: bytes, pos: nat, n: nat, x: T, others: seq<T>, next: nat, first: bool, rest: bool, end: nat)
    requires n > 0 && SectionReads(k, m, next, n - 1, others, rest, end)
    requires k.dec(m, pos) == if first then Ok(ItemEnd(x, next)) else Err(TooManyPtr)
    ensures SectionReads(k, m, pos, n, [x] + others, first && rest, end)
  {
  }

  /** An item is near when no sound table can put it out of the reader's reach. */
  ghost predicate ItemNear<T>(k: Kind<T>, m: bytes, x: T, pos: nat, t: Table, w: bytes) {
    TableSound(m, t) && Written(m, pos, k.enc(x, pos, t), w) ==> k.readable(m, x, pos, t)
  }

  ghost predicate Near<T(!new)>(k: Kind<T>, m: bytes, xs: seq<T>) {
    forall x, pos, t, w {:trigger ItemNear(k, m, x, pos, t, w)} :: x in xs ==> ItemNear(k, m, x, pos, t, w)
  }

  lemma {:induction false} NearItemsReadable<T(!new)>(k: Kind<T>, m: bytes, pos: nat, xs: seq<T>, t: Table, w: bytes)
    requires TableSound(m, t) && Lawful(k, m, xs) && Near(k, m, xs) && Written(m, pos, EncodeItems(k.enc, xs, pos, t), w)
    ensures AllReadable(k, m, xs, pos, t)
    decreases |xs|
  {
    if xs != [] {
      var first, t1, rest := FirstItem(k.enc, m, pos, xs, t, w);
      assert ItemLaw(k, m, xs[0], pos, t, first) && ItemNear(k, m, xs[0], pos, t, first);
      NearItemsReadable(k, m, pos + |first|, xs[1..], t1, rest);
    }
  }

  /** The items stand between `pos` and `end`, written with the sound table `t`. */
  ghost predicate SectionAt<T>(k: Kind<T>, m: bytes, pos: nat, xs: seq<T>, t: Table, end: nat) {
    var e := EncodeItems(k.enc, xs, pos, t);
    TableSound(m, t) && e.out.Ok? && At(m, pos, e.out.value) && end == pos + |e.out.value|
  }

  lemma SectionReadsBack<T(!new)>(k: Kind<T>, m: bytes, pos: nat, xs: seq<T>, t: Table, end: nat)
    requires Lawful(k, m, xs) && SectionAt(k, m, pos, xs, t, end)
    ensures SectionReads(k, m, pos, |xs|, AllFilled(k, xs, pos, t), AllReadable(k, m, xs, pos, t), end)
    ensures TableSound(m, EncodeItems(k.enc, xs, pos, t).table)
  {
    var w := EncodeItems(k.enc, xs, pos, t).out.value;
    ItemsReadBack(k, m, pos, xs, t, w, end);
  }

  lemma NearSectionReadable<T(!new)>(k: Kind<T>, m: bytes, pos: nat, xs: seq<T>, t: Table, end: nat)
    requires Lawful(k, m, xs) && Near(k, m, xs) && SectionAt(k, m, pos, xs, t, end)
    ensures AllReadable(k, m, xs, pos, t)
  {
    var w := EncodeItems(k.enc, xs, pos, t).out.value;
    NearItemsReadable(k, m, pos, xs, t, w);
  }
}
