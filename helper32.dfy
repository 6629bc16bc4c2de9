/** The 32-bit seed-to-key helper (PROXY_Generated/Helper32.cpp): it takes
    a library path and a seed of eight bytes written as sixteen hex
    digits, loads the library, calls its ASK_KeyGenerate entry point and
    prints the eight key bytes as sixteen upper-case hex digits. Loading
    the library and the vendor key function are inputs of the model; the
    text written to the error stream is reduced to whether anything was
    written. */
module Helper32 {
  import opened Base
  import opened Cast

  /** The eight-byte seed and key buffers. */
  type Block = s: seq<Byte> | |s| == 8 witness [0, 0, 0, 0, 0, 0, 0, 0]

  const ZeroKey: Block := [0, 0, 0, 0, 0, 0, 0, 0]

  /** What LoadLibraryA and GetProcAddress find for a path: no module, a
      module without ASK_KeyGenerate, or one whose ASK_KeyGenerate maps a
      seed and the key buffer as it was to the key buffer it leaves. */
  datatype Library =
    | NotLoaded
    | WithoutKeyGenerate
    | WithKeyGenerate(keyGenerate: (Block, Block) -> Block)

  /** What a run leaves behind: the exit code, standard output, whether an
      error was written, whether the library was loaded, and how often it
      was freed. */
  datatype Run = Run(exitCode: int, stdout: string, errorWritten: bool, loaded: bool, frees: nat)

  /** Sixteen hex digits at the start of the seed argument; what sscanf
      makes of anything else is not modelled. */
  predicate WellFormedSeed(s: string) {
    |s| >= 16 && AllHexDigits(s[..16])
  }

  /** The seed sscanf reads: byte i from the digit pair at 2i, 2i+1. */
  function SeedBytes(s: string): (r: Block)
    requires WellFormedSeed(s)
    ensures forall i | 0 <= i < 8 :: r[i] == 16 * DigitValue(s[2 * i]) + DigitValue(s[2 * i + 1])
  {
    PairValues(s[..16])
  }

  /** The line printed on success. */
  function KeyLine(key: Block): string {
    PairsText(key) + "\n"
  }

  /** main: a wrong argument count, a library that does not load or lacks
      the entry point all fail with an error message and nothing on
      standard output; a library that was loaded is freed exactly once on
      every path; on success the key computed from the decoded seed and a
      zeroed buffer is printed. */
  method Helper(argv: seq<string>, load: string -> Library) returns (run: Run)
    requires |argv| == 3 ==> WellFormedSeed(argv[2])
    ensures |argv| != 3 ==> run == Run(-1, "", true, false, 0)
    ensures |argv| == 3 && load(argv[1]).NotLoaded? ==> run == Run(-1, "", true, false, 0)
    ensures |argv| == 3 && load(argv[1]).WithoutKeyGenerate? ==> run == Run(-2, "", true, true, 1)
    ensures |argv| == 3 && load(argv[1]).WithKeyGenerate? ==>
      run == Run(0, KeyLine(load(argv[1]).keyGenerate(SeedBytes(argv[2]), ZeroKey)), false, true, 1)
  {
    if |argv| != 3 {
      return Run(-1, "", true, false, 0);
    }
    var seed := new Byte[8];
    var decoded := SeedBytes(argv[2]);
    forall i | 0 <= i < 8 {
      seed[i] := decoded[i];
    }
    assert seed[..] == decoded;
    var library := load(argv[1]);
    if library.NotLoaded? {
      return Run(-1, "", true, false, 0);
    }
    var frees := 0;
    if library.WithoutKeyGenerate? {
      frees := frees + 1;
      return Run(-2, "", true, true, frees);
    }
    var keyBuffer := new Byte[8](_ => 0);
    assert keyBuffer[..] == ZeroKey;
    var key := library.keyGenerate(seed[..], keyBuffer[..]);
    forall i | 0 <= i < 8 {
      keyBuffer[i] := key[i];
    }
    var out := "";
    for i := 0 to 8
      invariant out == PairsText(keyBuffer[..i])
    {
      assert keyBuffer[..i + 1][..i] == keyBuffer[..i];
      out := out + UpperPair(keyBuffer[i]);
    }
    assert keyBuffer[..8] == key;
    out := out + "\n";
    frees := frees + 1;
    run := Run(0, out, false, true, frees);
  }

  /** The printed line is sixteen upper-case hex digits and a newline, key
      byte i at positions 2i and 2i+1. */
  lemma KeyLineShape(key: Block)
    ensures |KeyLine(key)| == 17 && KeyLine(key)[16] == '\n'
    ensures AllUpperHexDigits(KeyLine(key)[..16])
    ensures forall i | 0 <= i < 8 :: KeyLine(key)[2 * i..2 * i + 2] == UpperPair(key[i])
  {
    PairsTextShape(key);
    var line := KeyLine(key);
    assert line[..16] == PairsText(key);
    forall i | 0 <= i < 8
      ensures line[2 * i..2 * i + 2] == UpperPair(key[i])
    {
      assert line[2 * i..2 * i + 2] == PairsText(key)[2 * i..2 * i + 2];
    }
  }

  /** Reading the printed line the way the seed is read gives the key
      back: the digit pairs are neither reordered nor reversed. */
  lemma KeyLineReadsBack(key: Block)
    ensures WellFormedSeed(KeyLine(key)) && SeedBytes(KeyLine(key)) == key
  {
    PairValuesOfPairsText(key);
    assert KeyLine(key)[..16] == PairsText(key);
  }

  /** A seed written as digit pairs is decoded to the same bytes. */
  lemma SeedOfPairs(seed: Block, rest: string)
    ensures WellFormedSeed(PairsText(seed) + rest) && SeedBytes(PairsText(seed) + rest) == seed
  {
    PairValuesOfPairsText(seed);
    assert (PairsText(seed) + rest)[..16] == PairsText(seed);
  }
}
