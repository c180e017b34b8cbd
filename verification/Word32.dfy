/** Unsigned 32-bit words and the seconds of a day. */
module Word32 {
  const WRAP: nat := 0x1_0000_0000
  const DAY: nat := 86400

  lemma AddMod(a: nat, b: nat)
    ensures (a % WRAP + b) % WRAP == (a + b) % WRAP
  {
  }
}
