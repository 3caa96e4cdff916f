/** The image loader `read_image_file` (lc3-alt.cpp:125-143) over the bytes
    of an image file: a big-endian origin, then big-endian words placed from
    the origin upwards, as many as the file holds and the memory array has
    room for. */
module Loader {
  import opened Bits
  import opened MachineState

  /** The load address: the first two bytes, big-endian. */
  function Origin(image: seq<Byte>): (o: Word)
    requires |image| >= 2
    ensures HighByte(o) == image[0] && LowByte(o) == image[1]
  {
    BigEndian(image[0], image[1])
  }

  /** Word `i` of the image body, big-endian. */
  function ImageWord(image: seq<Byte>, i: nat): Word
    requires 2 * i + 3 < |image|
  {
    BigEndian(image[2 * i + 2], image[2 * i + 3])
  }

  /** How many words land in memory: the whole words after the origin, but
      no more than `UINT16_MAX - origin`, the room left before the end of
      the 65535-word array. */
  function WordCount(image: seq<Byte>): (n: nat)
    ensures |image| >= 2 ==> n + Origin(image) <= MEMORY_SIZE
    ensures |image| >= 2 ==> 2 * n + 2 <= |image|
    ensures |image| < 2 ==> n == 0
  {
    if |image| < 2 then 0
    else
      var available := (|image| - 2) / 2;
      var room := MEMORY_SIZE - Origin(image);
      if available < room then available else room
  }

  /** Cell `a` after loading: word `a - origin` of the image inside the
      loaded range, the old word outside it. */
  function LoadedWord(mem: seq<Word>, image: seq<Byte>, a: nat): Word
    requires |mem| == MEMORY_SIZE && |image| >= 2 && a < MEMORY_SIZE
  {
    var origin := Origin(image);
    if origin <= a < origin + WordCount(image) then ImageWord(image, a - origin) else mem[a]
  }

  /** Memory after loading `image` over `mem`. A file too short to hold
      an origin loads nothing. */
  function Load(mem: seq<Word>, image: seq<Byte>): (m: seq<Word>)
    requires |mem| == MEMORY_SIZE
    ensures |m| == MEMORY_SIZE
    ensures |image| < 2 ==> m == mem
  {
    if |image| < 2 then mem
    else seq(MEMORY_SIZE, a requires 0 <= a < MEMORY_SIZE => LoadedWord(mem, image, a))
  }

  /** `Load` puts word `a - origin` of the image in each cell of the loaded
      range and keeps the old word elsewhere. */
  lemma LoadAt(mem: seq<Word>, image: seq<Byte>, a: nat)
    requires |mem| == MEMORY_SIZE && |image| >= 2 && a < MEMORY_SIZE
    ensures var origin := Origin(image);
      Load(mem, image)[a] ==
        if origin <= a < origin + WordCount(image) then ImageWord(image, a - origin) else mem[a]
  {
  }

  /** The loader writes word `i` of the image at `origin + i` for every `i`
      below the word count, and leaves every cell below the origin and from
      `origin + count` on as it was. The word count is the number of whole
      words in the file, cut to the room left before the end of memory. */
  lemma LoadPlacesWords(mem: seq<Word>, image: seq<Byte>)
    requires |mem| == MEMORY_SIZE && |image| >= 2
    ensures var origin, n, m := Origin(image), WordCount(image), Load(mem, image);
      && n == (if (|image| - 2) / 2 < MEMORY_SIZE - origin then (|image| - 2) / 2 else MEMORY_SIZE - origin)
      && (forall i :: 0 <= i < n ==> m[origin + i] == ImageWord(image, i))
      && (forall a :: 0 <= a < origin ==> m[a] == mem[a])
      && (forall a :: origin + n <= a < MEMORY_SIZE ==> m[a] == mem[a])
  {
    var origin, n, m := Origin(image), WordCount(image), Load(mem, image);
    forall i | 0 <= i < n
      ensures m[origin + i] == ImageWord(image, i)
    {
      LoadAt(mem, image, origin + i);
    }
    forall a | 0 <= a < MEMORY_SIZE && !(origin <= a < origin + n)
      ensures m[a] == mem[a]
    {
      LoadAt(mem, image, a);
    }
  }

  /** Reading the body in host (little-endian) order and then swapping the
      bytes of every word read is `Load`. */
  lemma LoadInHostOrder(m0: seq<Word>, image: seq<Byte>, origin: nat, n: nat, m1: seq<Word>, m2: seq<Word>)
    requires |m0| == |m1| == |m2| == MEMORY_SIZE && |image| >= 2
    requires origin == Origin(image) && n == WordCount(image)
    requires forall a :: 0 <= a < MEMORY_SIZE ==>
               m1[a] == (if origin <= a < origin + n
                         then LittleEndian(image[2 * (a - origin) + 2], image[2 * (a - origin) + 3])
                         else m0[a])
    requires forall a :: 0 <= a < MEMORY_SIZE ==>
               m2[a] == (if origin <= a < origin + n then SwapBytes(m1[a]) else m1[a])
    ensures m2 == Load(m0, image)
  {
    forall a | 0 <= a < MEMORY_SIZE
      ensures m2[a] == Load(m0, image)[a]
    {
      LoadAt(m0, image, a);
      if origin <= a < origin + n {
        SwapLittleToBig(image[2 * (a - origin) + 2], image[2 * (a - origin) + 3]);
      }
    }
  }

  /** Memory after the images named on the command line have been loaded
      one after the other: a later image overwrites an earlier one where
      they overlap. */
  function LoadAll(mem: seq<Word>, images: seq<seq<Byte>>): (m: seq<Word>)
    requires |mem| == MEMORY_SIZE
    ensures |m| == MEMORY_SIZE
  {
    if images == [] then mem
    else Load(LoadAll(mem, images[..|images| - 1]), images[|images| - 1])
  }

  /** A cell that no image covers keeps its old word. */
  lemma {:induction false} LoadAllUncovered(mem: seq<Word>, images: seq<seq<Byte>>, a: nat)
    requires |mem| == MEMORY_SIZE && a < MEMORY_SIZE
    requires forall j :: 0 <= j < |images| ==> !Covers(images[j], a)
    ensures LoadAll(mem, images)[a] == mem[a]
    decreases |images|
  {
    if images != [] {
      var n := |images| - 1;
      LoadAllUncovered(mem, images[..n], a);
      if |images[n]| >= 2 {
        LoadAt(LoadAll(mem, images[..n]), images[n], a);
      }
    }
  }

  /** Loading an image that does not cover `a` keeps cell `a`. */
  lemma LoadUncovered(mem: seq<Word>, image: seq<Byte>, a: nat)
    requires |mem| == MEMORY_SIZE && a < MEMORY_SIZE && !Covers(image, a)
    ensures Load(mem, image)[a] == mem[a]
  {
    if |image| >= 2 {
      LoadAt(mem, image, a);
    }
  }

  /** A cell covered by image `j` and by no later image holds the word of
      image `j`. */
  lemma {:induction false} LoadAllLastWins(mem: seq<Word>, images: seq<seq<Byte>>, a: nat, j: nat)
    requires |mem| == MEMORY_SIZE && a < MEMORY_SIZE
    requires j < |images| && Covers(images[j], a)
    requires forall k :: j < k < |images| ==> !Covers(images[k], a)
    ensures LoadAll(mem, images)[a] == ImageWord(images[j], a - Origin(images[j]))
    decreases |images|
  {
    var n := |images| - 1;
    var front := images[..n];
    var m0 := LoadAll(mem, front);
    assert LoadAll(mem, images) == Load(m0, images[n]);
    if j == n {
      LoadAt(m0, images[n], a);
    } else {
      LoadUncovered(m0, images[n], a);
      assert front[j] == images[j];
      forall k | j < k < n
        ensures !Covers(front[k], a)
      {
        assert front[k] == images[k];
      }
      LoadAllLastWins(mem, front, a, j);
    }
  }

  /** The loaded range of `image` covers address `a`. */
  predicate Covers(image: seq<Byte>, a: nat)
  {
    |image| >= 2 && Origin(image) <= a < Origin(image) + WordCount(image)
  }

  /** The bytes of one word, high byte first. */
  function WordBytes(w: Word): seq<Byte>
  {
    [HighByte(w), LowByte(w)]
  }

  /** The big-endian bytes of a sequence of words. */
  function BodyBytes(words: seq<Word>): (b: seq<Byte>)
    ensures |b| == 2 * |words|
  {
    if words == [] then [] else WordBytes(words[0]) + BodyBytes(words[1..])
  }

  /** An image file holding `words` to be loaded at `origin`. */
  function Image(origin: Word, words: seq<Word>): (b: seq<Byte>)
    ensures |b| == 2 + 2 * |words|
  {
    WordBytes(origin) + BodyBytes(words)
  }

  /** Bytes `2k` and `2k + 1` of the body are the two halves of word `k`. */
  lemma {:induction false} BodyBytesAt(words: seq<Word>, k: nat)
    requires k < |words|
    ensures BodyBytes(words)[2 * k] == HighByte(words[k])
    ensures BodyBytes(words)[2 * k + 1] == LowByte(words[k])
  {
    if k > 0 {
      BodyBytesAt(words[1..], k - 1);
    }
  }

  /** Splitting a word into bytes and joining them back gives the word. */
  lemma JoinBytes(w: Word)
    ensures BigEndian(HighByte(w), LowByte(w)) == w
  {
  }

  /** The header of `Image(origin, words)` gives back `origin`. */
  lemma ImageOrigin(origin: Word, words: seq<Word>)
    ensures Origin(Image(origin, words)) == origin
  {
    JoinBytes(origin);
  }

  /** Word `i` of the body of `Image(origin, words)` is `words[i]`. */
  lemma ImageWordIs(origin: Word, words: seq<Word>, i: nat)
    requires i < |words|
    ensures ImageWord(Image(origin, words), i) == words[i]
  {
    var image := Image(origin, words);
    BodyBytesAt(words, i);
    JoinBytes(words[i]);
    assert image[2 * i + 2] == BodyBytes(words)[2 * i];
    assert image[2 * i + 3] == BodyBytes(words)[2 * i + 1];
  }

  /** The word count of `Image(origin, words)`: all of `words`, cut at the
      end of memory. */
  lemma ImageWordCount(origin: Word, words: seq<Word>)
    ensures var n := WordCount(Image(origin, words));
      n == if origin + |words| <= MEMORY_SIZE then |words| else MEMORY_SIZE - origin
  {
    var image := Image(origin, words);
    ImageOrigin(origin, words);
    assert (|image| - 2) / 2 == |words|;
  }

  /** Loading an image made from `origin` and `words` that fit below the end
      of memory puts exactly those words at `origin` and keeps every other
      cell. */
  lemma LoadImageRoundTrip(mem: seq<Word>, origin: Word, words: seq<Word>)
    requires |mem| == MEMORY_SIZE
    requires origin + |words| <= MEMORY_SIZE
    ensures var m := Load(mem, Image(origin, words));
      && m[origin..origin + |words|] == words
      && (forall a :: 0 <= a < MEMORY_SIZE && !(origin <= a < origin + |words|)
            ==> m[a] == mem[a])
  {
    var image := Image(origin, words);
    var m := Load(mem, image);
    ImageOrigin(origin, words);
    ImageWordCount(origin, words);
    LoadPlacesWords(mem, image);
    forall i | 0 <= i < |words|
      ensures m[origin + i] == words[i]
    {
      ImageWordIs(origin, words, i);
    }
    assert m[origin..origin + |words|] == words;
  }

  /** An image with more words than fit is cut at the end of memory: the
      words that fit are placed and none is written at or beyond index
      65535. */
  lemma LoadTruncates(mem: seq<Word>, origin: Word, words: seq<Word>)
    requires |mem| == MEMORY_SIZE
    requires origin + |words| > MEMORY_SIZE
    ensures var m := Load(mem, Image(origin, words));
      && (forall i :: 0 <= i < MEMORY_SIZE - origin ==> m[origin + i] == words[i])
      && (forall a :: 0 <= a < origin ==> m[a] == mem[a])
  {
    var image := Image(origin, words);
    ImageOrigin(origin, words);
    ImageWordCount(origin, words);
    LoadPlacesWords(mem, image);
    forall i | 0 <= i < MEMORY_SIZE - origin
      ensures Load(mem, image)[origin + i] == words[i]
    {
      ImageWordIs(origin, words, i);
    }
  }
}
