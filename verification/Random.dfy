/** The two 64-bit mixers of src/fault_engine.cpp. Nothing is proved about their quality: they are
    deterministic functions of their input, which is all the theorems use. */
module Random {
  import opened Words

  const GAMMA: bv64 := 0x9E3779B97F4A7C15
  const FNV_OFFSET_BASIS: bv64 := 14695981039346656037
  const FNV_PRIME: bv64 := 1099511628211

  /** splitmix64: the state moves by a constant and the draw is a mix of the new state. */
  function NextState(state: bv64): bv64 {
    state + GAMMA
  }

  function Mix(state: bv64): bv64 {
    var a := (state ^ (state >> 30)) * 0xBF58476D1CE4E5B9;
    var b := (a ^ (a >> 27)) * 0x94D049BB133111EB;
    b ^ (b >> 31)
  }

  function Word(value: bv64): u64 {
    value as u64
  }

  function Draw(state: bv64): u64 {
    Word(Mix(state))
  }

  /** A draw in 0..upper; an upper bound of zero draws nothing. */
  function Bounded(state: bv64, upper: u64): (draw: (u64, bv64))
    requires upper < TWO_64 - 1
    ensures draw.0 <= upper
  {
    if upper == 0 then (0, state)
    else (Draw(NextState(state)) % (upper + 1), NextState(state))
  }

  function FnvStep(hash: bv64, byte: u8): bv64 {
    (hash ^ (byte as bv64)) * FNV_PRIME
  }

  /** FNV-1a over the bytes of a target name; a character outside a byte is truncated to one. */
  function TargetHash(hash: bv64, target: string): bv64
    decreases |target|
  {
    if target == [] then hash else TargetHash(FnvStep(hash, target[0] as int % 0x100), target[1..])
  }

  function TargetSeed(seed: bv64, target: string): bv64 {
    TargetHash(FNV_OFFSET_BASIS ^ seed, target)
  }

  /** The published first output of splitmix64 from seed zero, and of FNV-1a on one byte. */
  lemma KnownValues()
    ensures Mix(NextState(0)) == 0xE220_A839_7B1D_CDAF
    ensures FnvStep(FNV_OFFSET_BASIS, 97) == 0xAF63_DC4C_8601_EC8C
  {
    assert (97 as u8) as bv64 == 97;
  }
}
