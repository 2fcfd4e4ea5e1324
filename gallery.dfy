/** The image gallery component: an index into a fixed, non-empty list of
    image sources, moved one step forward or back per click, wrapping at
    both ends. The transitions are the two updater expressions of the
    component, with JavaScript's truncating `%`; the component itself is a
    class whose one field each click handler overwrites. */
module Gallery {
  import opened JsNumber

  /** The three image sources the component cycles through. */
  const Images: seq<string> := [
    "https://picsum.photos/id/237/600/375",
    "https://picsum.photos/id/238/600/375",
    "https://picsum.photos/id/239/600/375"
  ]

  /** The two buttons of the gallery. */
  datatype Press = Next | Prev

  /** The updater of the Next button: `(i + 1) % images.length`, where `n`
      is the length of the list. From any valid index it moves one place
      forward, and from the last index back to the first. */
  function NextIndex(i: int, n: int): (r: int)
    requires n > 0
    ensures 0 <= i < n ==> 0 <= r < n
    ensures 0 <= i < n ==> r == if i == n - 1 then 0 else i + 1
  {
    if i == n - 1 then
      ModUnique(n, n, 1, 0);
      Rem(i + 1, n)
    else if 0 <= i < n then
      ModUnique(i + 1, n, 0, i + 1);
      Rem(i + 1, n)
    else
      Rem(i + 1, n)
  }

  /** The updater of the Previous button: `(i - 1 + images.length) %
      images.length`. The added length keeps the dividend non-negative, so
      from a valid index the result is never negative: it moves one place
      back, and from the first index to the last. */
  function PrevIndex(i: int, n: int): (r: int)
    requires n > 0
    ensures 0 <= i < n ==> 0 <= r < n
    ensures 0 <= i < n ==> r == if i == 0 then n - 1 else i - 1
  {
    if i == 0 then
      ModUnique(n - 1, n, 0, n - 1);
      Rem(i - 1 + n, n)
    else if 0 < i < n then
      ModUnique(i - 1 + n, n, 1, i - 1);
      Rem(i - 1 + n, n)
    else
      Rem(i - 1 + n, n)
  }

  /** For a valid index the JavaScript remainder in PrevIndex is the
      mathematical (Euclidean) one: the dividend is never negative. */
  lemma PrevIndexIsEuclidean(i: int, n: int)
    requires 0 <= i < n
    ensures i - 1 + n >= 0
    ensures PrevIndex(i, n) == (i - 1 + n) % n
  {
    RemOfNonNegative(i - 1 + n, n);
  }

  /** Without the added length, Previous from the first image of a list of
      two or more would produce the index -1, which is out of bounds. */
  lemma PrevNeedsOffset(n: int)
    requires n > 1
    ensures Rem(0 - 1, n) == -1
    ensures PrevIndex(0, n) == n - 1
  {
    RemOfMinusOne(n);
  }

  /** Previous undoes Next. */
  lemma PrevAfterNext(i: int, n: int)
    requires 0 <= i < n
    ensures PrevIndex(NextIndex(i, n), n) == i
  {
  }

  /** Next undoes Previous. */
  lemma NextAfterPrev(i: int, n: int)
    requires 0 <= i < n
    ensures NextIndex(PrevIndex(i, n), n) == i
  {
  }

  /** The index after one click. */
  function Step(i: int, p: Press, n: int): int
    requires n > 0
  {
    match p
    case Next => NextIndex(i, n)
    case Prev => PrevIndex(i, n)
  }

  /** The index after the clicks `presses`, oldest first, starting from `i`. */
  function Run(i: int, presses: seq<Press>, n: int): (r: int)
    requires 0 <= i < n
    ensures 0 <= r < n
    decreases |presses|
  {
    if presses == [] then i
    else Step(Run(i, presses[..|presses| - 1], n), presses[|presses| - 1], n)
  }

  /** `k` clicks of the same button. */
  function Repeat(p: Press, k: nat): (s: seq<Press>)
    ensures |s| == k
    ensures forall j :: 0 <= j < k ==> s[j] == p
  {
    if k == 0 then [] else Repeat(p, k - 1) + [p]
  }

  lemma ModSucc(x: int, n: int)
    requires n > 0
    ensures (x + 1) % n == if x % n == n - 1 then 0 else x % n + 1
  {
    var q, r := x / n, x % n;
    if r == n - 1 {
      ModUnique(x + 1, n, q + 1, 0);
    } else {
      ModUnique(x + 1, n, q, r + 1);
    }
  }

  lemma ModPred(x: int, n: int)
    requires n > 0
    ensures (x - 1) % n == if x % n == 0 then n - 1 else x % n - 1
  {
    var q, r := x / n, x % n;
    if r == 0 {
      ModUnique(x - 1, n, q - 1, n - 1);
    } else {
      ModUnique(x - 1, n, q, r - 1);
    }
  }

  /** `k` clicks of Next from index `i` land on `(i + k) mod n`. */
  lemma {:induction false} NextClicks(i: int, k: nat, n: int)
    requires 0 <= i < n
    ensures Run(i, Repeat(Next, k), n) == (i + k) % n
  {
    if k == 0 {
      ModUnique(i, n, 0, i);
    } else {
      var s := Repeat(Next, k);
      assert s[..k - 1] == Repeat(Next, k - 1);
      NextClicks(i, k - 1, n);
      var before := Run(i, Repeat(Next, k - 1), n);
      assert Run(i, s, n) == NextIndex(before, n);
      ModSucc(i + (k - 1), n);
    }
  }

  /** `k` clicks of Previous from index `i` land on `(i - k) mod n`, the
      mathematical modulus, which is never negative. */
  lemma {:induction false} PrevClicks(i: int, k: nat, n: int)
    requires 0 <= i < n
    ensures Run(i, Repeat(Prev, k), n) == (i - k) % n
  {
    if k == 0 {
      ModUnique(i, n, 0, i);
    } else {
      var s := Repeat(Prev, k);
      assert s[..k - 1] == Repeat(Prev, k - 1);
      PrevClicks(i, k - 1, n);
      var before := Run(i, Repeat(Prev, k - 1), n);
      assert Run(i, s, n) == PrevIndex(before, n);
      ModPred(i - (k - 1), n);
    }
  }

  lemma NegMod(k: nat, n: int)
    requires n > 0
    ensures (0 - k) % n == (n - k % n) % n
  {
    var q, r := k / n, k % n;
    assert k == n * q + r;
    if r == 0 {
      assert 0 - k == n * (-q) + 0;
      ModUnique(0 - k, n, -q, 0);
      ModUnique(n, n, 1, 0);
    } else {
      assert 0 - k == n * (-q - 1) + (n - r);
      ModUnique(0 - k, n, -q - 1, n - r);
      ModUnique(n - r, n, 0, n - r);
    }
  }

  /** From the first image, `k` clicks of Next show image `k mod n`, and `k`
      clicks of Previous show image `(n - k mod n) mod n`. */
  lemma ClicksFromFirst(k: nat, n: int)
    requires n > 0
    ensures Run(0, Repeat(Next, k), n) == k % n
    ensures Run(0, Repeat(Prev, k), n) == (n - k % n) % n
  {
    NextClicks(0, k, n);
    PrevClicks(0, k, n);
    NegMod(k, n);
  }

  /** Three clicks of Next on the three-image list come back to the first image. */
  lemma ThreeNextClicksWrap()
    ensures Run(0, Repeat(Next, 3), |Images|) == 0
  {
    ClicksFromFirst(3, |Images|);
  }

  /** The component's state: `currentImageIndex` and, as ghost state, the
      clicks received since it was created. */
  class ImageGallery {
    const images: seq<string>
    var currentImageIndex: int
    ghost var presses: seq<Press>

    /** The index is a valid position in `images`, and it is the one the
        recorded clicks lead to from the first image. */
    ghost predicate Valid()
      reads this
    {
      0 < |images| &&
      0 <= currentImageIndex < |images| &&
      currentImageIndex == Run(0, presses, |images|)
    }

    /** The component starts on the first image. */
    constructor (images: seq<string>)
      requires 0 < |images|
      ensures Valid()
      ensures this.images == images
      ensures currentImageIndex == 0 && presses == []
    {
      this.images := images;
      currentImageIndex := 0;
      presses := [];
    }

    /** The Next button's click handler. */
    method HandleNextClick()
      requires Valid()
      modifies this
      ensures Valid()
      ensures currentImageIndex == NextIndex(old(currentImageIndex), |images|)
      ensures presses == old(presses) + [Next]
    {
      currentImageIndex := NextIndex(currentImageIndex, |images|);
      presses := presses + [Next];
      assert presses[..|presses| - 1] == old(presses);
    }

    /** The Previous button's click handler. */
    method HandlePrevClick()
      requires Valid()
      modifies this
      ensures Valid()
      ensures currentImageIndex == PrevIndex(old(currentImageIndex), |images|)
      ensures presses == old(presses) + [Prev]
    {
      currentImageIndex := PrevIndex(currentImageIndex, |images|);
      presses := presses + [Prev];
      assert presses[..|presses| - 1] == old(presses);
    }

    /** The source of the displayed image: always an element of `images`,
        the one the clicks so far lead to. */
    function Src(): (url: string)
      reads this
      requires Valid()
      ensures url in images
      ensures url == images[Run(0, presses, |images|)]
    {
      images[currentImageIndex]
    }
  }

  /** The gallery on the three images, after three clicks of Next, shows
      the first image again. */
  method ThreeNextClicksShowFirst() returns (url: string)
    ensures url == Images[0]
  {
    var gallery := new ImageGallery(Images);
    gallery.HandleNextClick();
    gallery.HandleNextClick();
    gallery.HandleNextClick();
    assert gallery.presses == Repeat(Next, 3);
    ThreeNextClicksWrap();
    url := gallery.Src();
  }
}
