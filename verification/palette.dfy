/** The palette store: the table of packed hex specifiers, the parser that
    cuts a specifier into six-character colour stops (`get_colors`), and the
    construction of the spectral palette from the table's last entry (`new`). */
module Palette {
  import opened Wrappers
  import opened ColorTypes
  import opened Hex

  /** A channel value as a parsed stop holds it: the integer divided by 255. */
  function ChannelOf(v: int): real
  {
    v as real / 255.0
  }

  /** The `i`-th six-character chunk of a specifier. */
  function Chunk(s: string, i: nat): (c: string)
    requires 6 * i + 6 <= |s|
    ensures |c| == 6
  {
    s[6 * i .. 6 * i + 6]
  }

  /** One colour stop from six characters: red, green and blue are the pairs
      at [0,2), [2,4) and [4,6) read in base 16 and divided by 255; alpha is 1.
      A pair that does not parse makes the whole chunk fail. */
  function ParseChunk(chunk: string): (r: Option<Rgba>)
    requires |chunk| == 6
    ensures r.Some? <==>
      && ParsePair(chunk[0], chunk[1]).Some?
      && ParsePair(chunk[2], chunk[3]).Some?
      && ParsePair(chunk[4], chunk[5]).Some?
  {
    var red := ParsePair(chunk[0], chunk[1]);
    var green := ParsePair(chunk[2], chunk[3]);
    var blue := ParsePair(chunk[4], chunk[5]);
    if red.Some? && green.Some? && blue.Some? then
      Some(Rgba(ChannelOf(red.value), ChannelOf(green.value), ChannelOf(blue.value), 1.0))
    else
      None
  }

  /** A parsed stop is opaque with channels in [-15/255, 1] (a sign may lead a
      pair); a chunk of six hex digits always parses, to channels in [0, 1]. */
  lemma ParseChunkRange(chunk: string)
    requires |chunk| == 6
    ensures ParseChunk(chunk).Some? ==> ParseChunk(chunk).value.a == 1.0
    ensures ParseChunk(chunk).Some? ==> -15.0 / 255.0 <= ParseChunk(chunk).value.r <= 1.0
    ensures ParseChunk(chunk).Some? ==> -15.0 / 255.0 <= ParseChunk(chunk).value.g <= 1.0
    ensures ParseChunk(chunk).Some? ==> -15.0 / 255.0 <= ParseChunk(chunk).value.b <= 1.0
    ensures (forall k :: 0 <= k < 6 ==> IsHexDigit(chunk[k])) ==>
      ParseChunk(chunk).Some? && InUnitRange(ParseChunk(chunk).value)
  {
  }

  /** Dropping the first chunk shifts every later chunk down by one. */
  lemma ChunkShift(s: string)
    requires |s| >= 6
    ensures |s[6..]| / 6 == |s| / 6 - 1
    ensures Chunk(s, 0) == s[..6]
    ensures forall i :: 0 <= i < |s[6..]| / 6 ==> Chunk(s[6..], i) == Chunk(s, i + 1)
    ensures forall i :: 1 <= i < |s| / 6 ==> Chunk(s, i) == Chunk(s[6..], i - 1)
  {
  }

  /** `get_colors` as a function: one stop per full six-character chunk, read
      front to back. `None` when some chunk holds a pair that is not a base-16
      number (where the original panics on `unwrap`). */
  function ParseColors(s: string): (r: Option<seq<Rgba>>)
    ensures r.Some? ==> |r.value| == |s| / 6
    decreases |s|
  {
    if |s| < 6 then Some([])
    else
      var first := ParseChunk(s[..6]);
      var rest := ParseColors(s[6..]);
      if first.Some? && rest.Some? then Some([first.value] + rest.value) else None
  }

  /** Stop `i` is parsed from characters [6i, 6i + 6), and the parse succeeds
      exactly when every full chunk does; characters past the last full chunk
      are never looked at. */
  lemma {:induction false} ParseColorsChunkwise(s: string)
    ensures ParseColors(s).Some? <==> forall i :: 0 <= i < |s| / 6 ==> ParseChunk(Chunk(s, i)).Some?
    ensures ParseColors(s).Some? ==>
      forall i :: 0 <= i < |s| / 6 ==> ParseChunk(Chunk(s, i)) == Some(ParseColors(s).value[i])
    decreases |s|
  {
    if |s| >= 6 {
      ChunkShift(s);
      ParseColorsChunkwise(s[6..]);
      var rest := ParseColors(s[6..]);
      if ParseColors(s).Some? {
        var r := ParseColors(s).value;
        assert forall i :: 1 <= i < |r| ==> r[i] == rest.value[i - 1];
      }
    }
  }

  /** A specifier made only of hex digits always parses, and every stop it
      gives is opaque with channels in [0, 1]. */
  lemma AllHexInRange(s: string)
    requires forall k :: 0 <= k < |s| ==> IsHexDigit(s[k])
    ensures ParseColors(s).Some?
    ensures forall i :: 0 <= i < |ParseColors(s).value| ==>
      InUnitRange(ParseColors(s).value[i]) && ParseColors(s).value[i].a == 1.0
  {
    forall i | 0 <= i < |s| / 6
      ensures ParseChunk(Chunk(s, i)).Some? && InUnitRange(ParseChunk(Chunk(s, i)).value)
      ensures ParseChunk(Chunk(s, i)).value.a == 1.0
    {
      assert forall k :: 0 <= k < 6 ==> Chunk(s, i)[k] == s[6 * i + k];
      ParseChunkRange(Chunk(s, i));
    }
    ParseColorsChunkwise(s);
  }

  /** `get_colors` as the original writes it: a vector of `len / 6` placeholder
      colours filled in chunk by chunk, each channel parsed with `unwrap`. */
  method GetColors(specifier: string) returns (r: Option<seq<Rgba>>)
    ensures r == ParseColors(specifier)
  {
    ParseColorsChunkwise(specifier);
    var numColors := |specifier| / 6;
    var colors := seq(numColors, _ => Rgba(0.0, 0.0, 0.0, 0.0));
    var i := 0;
    while i < numColors
      invariant 0 <= i <= numColors
      invariant |colors| == numColors
      invariant forall j :: 0 <= j < i ==> ParseChunk(Chunk(specifier, j)) == Some(colors[j])
    {
      var colorString := specifier[i * 6 .. i * 6 + 6];
      var red := ParsePair(colorString[0], colorString[1]);
      var green := ParsePair(colorString[2], colorString[3]);
      var blue := ParsePair(colorString[4], colorString[5]);
      if red.None? || green.None? || blue.None? {
        assert !ParseChunk(Chunk(specifier, i)).Some?;
        return None;
      }
      colors := colors[i := Rgba(ChannelOf(red.value), ChannelOf(green.value), ChannelOf(blue.value), 1.0)];
      i := i + 1;
    }
    assert ParseColors(specifier).Some?;
    assert ParseColors(specifier).value == colors;
    r := Some(colors);
  }

  /** An RGB triple of bytes: what one six-character chunk spells. */
  datatype Triplet = Triplet(r: Byte, g: Byte, b: Byte)

  /** The stop a triple stands for: each byte divided by 255, opaque. */
  function StopOf(c: Triplet): (s: Rgba)
    ensures InUnitRange(s) && s.a == 1.0
  {
    Rgba(ChannelOf(c.r), ChannelOf(c.g), ChannelOf(c.b), 1.0)
  }

  function StopsOf(cs: seq<Triplet>): (s: seq<Rgba>)
    ensures |s| == |cs|
  {
    seq(|cs|, i requires 0 <= i < |cs| => StopOf(cs[i]))
  }

  /** The six lower-case hex characters of a triple. */
  function EncodeTriplet(c: Triplet): (s: string)
    ensures |s| == 6
  {
    EncodeByte(c.r) + EncodeByte(c.g) + EncodeByte(c.b)
  }

  /** A packed specifier for a sequence of triples, built left to right. */
  function EncodeTriplets(cs: seq<Triplet>): (s: string)
    ensures |s| == 6 * |cs|
  {
    if |cs| == 0 then "" else EncodeTriplets(cs[..|cs| - 1]) + EncodeTriplet(cs[|cs| - 1])
  }

  lemma ParseEncodeTriplet(c: Triplet)
    ensures ParseChunk(EncodeTriplet(c)) == Some(StopOf(c))
  {
    var s := EncodeTriplet(c);
    ParseEncodeByte(c.r);
    ParseEncodeByte(c.g);
    ParseEncodeByte(c.b);
    assert s[0..2] == EncodeByte(c.r) && s[2..4] == EncodeByte(c.g) && s[4..6] == EncodeByte(c.b);
  }

  /** Both parses succeed and their stops are joined, or the result fails. */
  function Concat(x: Option<seq<Rgba>>, y: Option<seq<Rgba>>): Option<seq<Rgba>>
  {
    if x.Some? && y.Some? then Some(x.value + y.value) else None
  }

  /** A specifier of exactly one chunk parses to that chunk's stop alone. */
  lemma ParseColorsSingle(c: string)
    requires |c| == 6
    ensures ParseColors(c) == if ParseChunk(c).Some? then Some([ParseChunk(c).value]) else None
  {
    assert c[..6] == c;
    assert |c[6..]| == 0;
    assert ParseColors(c[6..]) == Some([]);
    if ParseChunk(c).Some? {
      assert [ParseChunk(c).value] + [] == [ParseChunk(c).value];
    }
  }

  /** Parsing distributes over concatenation at a chunk boundary: the stops of
      `a + b` are those of `a` followed by those of `b`, and the whole fails
      exactly when one part does. */
  lemma {:induction false} ParseColorsAppend(a: string, b: string)
    requires |a| % 6 == 0
    ensures ParseColors(a + b) == Concat(ParseColors(a), ParseColors(b))
    decreases |a|
  {
    if |a| == 0 {
      assert a + b == b;
      assert ParseColors(a) == Some([]);
      if ParseColors(b).Some? {
        assert [] + ParseColors(b).value == ParseColors(b).value;
      }
    } else {
      var ab := a + b;
      assert ab[..6] == a[..6];
      assert ab[6..] == a[6..] + b;
      ParseColorsAppend(a[6..], b);
      var x := ParseColors(a[6..]);
      var y := ParseColors(b);
      var c := ParseChunk(a[..6]);
      if c.Some? && x.Some? && y.Some? {
        assert [c.value] + (x.value + y.value) == ([c.value] + x.value) + y.value;
      }
    }
  }

  /** The specifier of one triple parses to that triple's stop alone. */
  lemma ParseColorsEncodeTriplet(c: Triplet)
    ensures ParseColors(EncodeTriplet(c)) == Some([StopOf(c)])
  {
    ParseEncodeTriplet(c);
    ParseColorsSingle(EncodeTriplet(c));
  }

  /** Appending one parsed chunk to a parsed specifier appends its stop. */
  lemma ParseColorsSnoc(a: string, c: string, xs: seq<Rgba>, y: Rgba)
    requires |a| % 6 == 0
    requires ParseColors(a) == Some(xs)
    requires ParseColors(c) == Some([y])
    ensures ParseColors(a + c) == Some(xs + [y])
  {
    ParseColorsAppend(a, c);
  }

  lemma EncodeTripletsSnoc(cs: seq<Triplet>)
    requires |cs| > 0
    ensures EncodeTriplets(cs) == EncodeTriplets(cs[..|cs| - 1]) + EncodeTriplet(cs[|cs| - 1])
  {
  }

  lemma StopsOfSnoc(cs: seq<Triplet>)
    requires |cs| > 0
    ensures StopsOf(cs) == StopsOf(cs[..|cs| - 1]) + [StopOf(cs[|cs| - 1])]
  {
  }

  /** Parsing a packed specifier gives back the stops of its triples. */
  lemma {:induction false} ParseEncodeRoundTrip(cs: seq<Triplet>)
    ensures ParseColors(EncodeTriplets(cs)) == Some(StopsOf(cs))
  {
    if |cs| == 0 {
      assert StopsOf(cs) == [];
    } else {
      var n := |cs| - 1;
      ParseEncodeRoundTrip(cs[..n]);
      ParseColorsEncodeTriplet(cs[n]);
      ParseColorsSnoc(EncodeTriplets(cs[..n]), EncodeTriplet(cs[n]), StopsOf(cs[..n]), StopOf(cs[n]));
      EncodeTripletsSnoc(cs);
      StopsOfSnoc(cs);
    }
  }

  /** Two specifiers whose full chunks agree parse alike. */
  lemma ParseColorsDependsOnChunks(s: string, s': string)
    requires |s| / 6 == |s'| / 6
    requires forall i :: 0 <= i < |s| / 6 ==> Chunk(s, i) == Chunk(s', i)
    ensures ParseColors(s) == ParseColors(s')
  {
    ParseColorsChunkwise(s);
    ParseColorsChunkwise(s');
    var a := ParseColors(s);
    var b := ParseColors(s');
    if a.Some? {
      assert b.Some?;
      forall i | 0 <= i < |a.value|
        ensures a.value[i] == b.value[i]
      {
        assert ParseChunk(Chunk(s, i)) == Some(a.value[i]);
        assert ParseChunk(Chunk(s', i)) == Some(b.value[i]);
      }
      assert a.value == b.value;
    }
  }

  /** Characters after the last full chunk do not change the result. */
  lemma ParseColorsIgnoresTail(s: string, tail: string)
    requires |s| % 6 == 0 && |tail| < 6
    ensures ParseColors(s + tail) == ParseColors(s)
  {
    var st := s + tail;
    assert |st| / 6 == |s| / 6;
    forall i | 0 <= i < |s| / 6
      ensures Chunk(st, i) == Chunk(s, i)
    {
      assert st[..|s|] == s;
      assert Chunk(st, i) == st[..|s|][6 * i .. 6 * i + 6];
    }
    ParseColorsDependsOnChunks(st, s);
  }

  /** The palette table: packed specifiers of 3 to 11 stops, each written
      here six characters (one stop) at a time. Only the last is used. */
  const SpectralColorsStrs: seq<string> := [
    "fc8d59" + "ffffbf" + "99d594",
    "d7191c" + "fdae61" + "abdda4" + "2b83ba",
    "d7191c" + "fdae61" + "ffffbf" + "abdda4" + "2b83ba",
    "d53e4f" + "fc8d59" + "fee08b" + "e6f598" + "99d594" + "3288bd",
    "d53e4f" + "fc8d59" + "fee08b" + "ffffbf" + "e6f598" + "99d594" + "3288bd",
    "d53e4f" + "f46d43" + "fdae61" + "fee08b" + "e6f598" + "abdda4" + "66c2a5" + "3288bd",
    "d53e4f" + "f46d43" + "fdae61" + "fee08b" + "ffffbf" + "e6f598" + "abdda4" + "66c2a5" + "3288bd",
    "9e0142" + "d53e4f" + "f46d43" + "fdae61" + "fee08b" + "e6f598" + "abdda4" + "66c2a5" + "3288bd" + "5e4fa2",
    "9e0142" + "d53e4f" + "f46d43" + "fdae61" + "fee08b" + "ffffbf" + "e6f598" + "abdda4" + "66c2a5" + "3288bd" + "5e4fa2"
  ]

  /** The byte triples the last table entry spells, in order. */
  const SpectralTriplets: seq<Triplet> := [
    Triplet(0x9e, 0x01, 0x42),
    Triplet(0xd5, 0x3e, 0x4f),
    Triplet(0xf4, 0x6d, 0x43),
    Triplet(0xfd, 0xae, 0x61),
    Triplet(0xfe, 0xe0, 0x8b),
    Triplet(0xff, 0xff, 0xbf),
    Triplet(0xe6, 0xf5, 0x98),
    Triplet(0xab, 0xdd, 0xa4),
    Triplet(0x66, 0xc2, 0xa5),
    Triplet(0x32, 0x88, 0xbd),
    Triplet(0x5e, 0x4f, 0xa2)
  ]

  /** The table has nine entries; entry `k` holds `k + 3` whole stops, so every
      length is a multiple of 6 and the last one is 66 characters long. */
  lemma TableShape()
    ensures |SpectralColorsStrs| == 9
    ensures forall k :: 0 <= k < |SpectralColorsStrs| ==> |SpectralColorsStrs[k]| == 6 * (k + 3)
    ensures forall k :: 0 <= k < |SpectralColorsStrs| ==> |SpectralColorsStrs[k]| % 6 == 0
    ensures |SpectralColorsStrs[8]| == 66
  {
  }

  /** The last table entry cut into its eleven stops. */
  const SpectralChunks: seq<string> := [
    "9e0142",
    "d53e4f",
    "f46d43",
    "fdae61",
    "fee08b",
    "ffffbf",
    "e6f598",
    "abdda4",
    "66c2a5",
    "3288bd",
    "5e4fa2"
  ]

  /** Concatenation of a sequence of strings, left to right. */
  function Joined(cs: seq<string>): string
  {
    if |cs| == 0 then "" else Joined(cs[..|cs| - 1]) + cs[|cs| - 1]
  }

  /** Chunks that each parse to a triple's stop parse, joined, to all the stops. */
  lemma {:induction false} ParseJoined(cs: seq<string>, ts: seq<Triplet>)
    requires |cs| == |ts|
    requires forall i :: 0 <= i < |cs| ==> |cs[i]| == 6 && ParseChunk(cs[i]) == Some(StopOf(ts[i]))
    ensures |Joined(cs)| == 6 * |cs|
    ensures ParseColors(Joined(cs)) == Some(StopsOf(ts))
  {
    if |cs| == 0 {
      assert StopsOf(ts) == [];
    } else {
      var n := |cs| - 1;
      ParseJoined(cs[..n], ts[..n]);
      ParseColorsSingle(cs[n]);
      ParseColorsSnoc(Joined(cs[..n]), cs[n], StopsOf(ts[..n]), StopOf(ts[n]));
      StopsOfSnoc(ts);
    }
  }

  /** Each spectral chunk parses to the matching spectral triple's stop. */
  lemma SpectralChunksParse()
    ensures |SpectralChunks| == |SpectralTriplets| == 11
    ensures forall i :: 0 <= i < |SpectralChunks| ==>
      |SpectralChunks[i]| == 6 && ParseChunk(SpectralChunks[i]) == Some(StopOf(SpectralTriplets[i]))
  {
    forall i | 0 <= i < 11
      ensures |SpectralChunks[i]| == 6 && ParseChunk(SpectralChunks[i]) == Some(StopOf(SpectralTriplets[i]))
    {
      if i == 0 {
        assert SpectralChunks[i] == "9e0142" && SpectralTriplets[i] == Triplet(0x9e, 0x01, 0x42);
      } else if i == 1 {
        assert SpectralChunks[i] == "d53e4f" && SpectralTriplets[i] == Triplet(0xd5, 0x3e, 0x4f);
      } else if i == 2 {
        assert SpectralChunks[i] == "f46d43" && SpectralTriplets[i] == Triplet(0xf4, 0x6d, 0x43);
      } else if i == 3 {
        assert SpectralChunks[i] == "fdae61" && SpectralTriplets[i] == Triplet(0xfd, 0xae, 0x61);
      } else if i == 4 {
        assert SpectralChunks[i] == "fee08b" && SpectralTriplets[i] == Triplet(0xfe, 0xe0, 0x8b);
      } else if i == 5 {
        assert SpectralChunks[i] == "ffffbf" && SpectralTriplets[i] == Triplet(0xff, 0xff, 0xbf);
      } else if i == 6 {
        assert SpectralChunks[i] == "e6f598" && SpectralTriplets[i] == Triplet(0xe6, 0xf5, 0x98);
      } else if i == 7 {
        assert SpectralChunks[i] == "abdda4" && SpectralTriplets[i] == Triplet(0xab, 0xdd, 0xa4);
      } else if i == 8 {
        assert SpectralChunks[i] == "66c2a5" && SpectralTriplets[i] == Triplet(0x66, 0xc2, 0xa5);
      } else if i == 9 {
        assert SpectralChunks[i] == "3288bd" && SpectralTriplets[i] == Triplet(0x32, 0x88, 0xbd);
      } else if i == 10 {
        assert SpectralChunks[i] == "5e4fa2" && SpectralTriplets[i] == Triplet(0x5e, 0x4f, 0xa2);
      }
    }
  }

  /** The first six spectral chunks, joined. */
  lemma JoinedFront()
    ensures Joined(SpectralChunks[..6]) == "9e0142" + "d53e4f" + "f46d43" + "fdae61" + "fee08b" + "ffffbf"
  {
    var cs := SpectralChunks;
    assert Joined(cs[..0]) == "";
    assert Joined(cs[..1]) == Joined(cs[..0]) + cs[0] by {
      assert cs[..1][..0] == cs[..0];
    }
    assert Joined(cs[..2]) == Joined(cs[..1]) + cs[1] by {
      assert cs[..2][..1] == cs[..1];
    }
    assert Joined(cs[..3]) == Joined(cs[..2]) + cs[2] by {
      assert cs[..3][..2] == cs[..2];
    }
    assert Joined(cs[..4]) == Joined(cs[..3]) + cs[3] by {
      assert cs[..4][..3] == cs[..3];
    }
    assert Joined(cs[..5]) == Joined(cs[..4]) + cs[4] by {
      assert cs[..5][..4] == cs[..4];
    }
    assert Joined(cs[..6]) == Joined(cs[..5]) + cs[5] by {
      assert cs[..6][..5] == cs[..5];
    }
  }

  /** The last table entry is its chunks joined. */
  lemma LastEntryJoined()
    ensures SpectralColorsStrs[|SpectralColorsStrs| - 1] == Joined(SpectralChunks)
  {
    var cs := SpectralChunks;
    JoinedFront();
    assert Joined(cs[..7]) == Joined(cs[..6]) + cs[6] by {
      assert cs[..7][..6] == cs[..6];
    }
    assert Joined(cs[..8]) == Joined(cs[..7]) + cs[7] by {
      assert cs[..8][..7] == cs[..7];
    }
    assert Joined(cs[..9]) == Joined(cs[..8]) + cs[8] by {
      assert cs[..9][..8] == cs[..8];
    }
    assert Joined(cs[..10]) == Joined(cs[..9]) + cs[9] by {
      assert cs[..10][..9] == cs[..9];
    }
    assert Joined(cs[..11]) == Joined(cs[..10]) + cs[10] by {
      assert cs[..11][..10] == cs[..10];
    }
    assert cs[..11] == cs;
  }

  /** The engine's palette (`SpectralColors`): fixed at construction. */
  datatype SpectralColors = SpectralColors(stops: seq<Rgba>)

  /** `SpectralColors::new`: the palette parsed from the last table entry. It
      has the eleven spectral stops, each opaque with channels in [0, 1]. */
  function New(): (sc: SpectralColors)
    ensures sc.stops == StopsOf(SpectralTriplets)
    ensures |sc.stops| == 11
    ensures forall i :: 0 <= i < |sc.stops| ==> InUnitRange(sc.stops[i]) && sc.stops[i].a == 1.0
    ensures sc.stops[0] == Rgba(158.0 / 255.0, 1.0 / 255.0, 66.0 / 255.0, 1.0)
    ensures sc.stops[10] == Rgba(94.0 / 255.0, 79.0 / 255.0, 162.0 / 255.0, 1.0)
  {
    LastEntryJoined();
    SpectralChunksParse();
    ParseJoined(SpectralChunks, SpectralTriplets);
    SpectralColors(ParseColors(SpectralColorsStrs[|SpectralColorsStrs| - 1]).value)
  }

}
