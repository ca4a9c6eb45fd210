/** The four identifier registers of the MCP25625 as bit fields of a 32-bit id (src/avr/can.c). */
module EidBits {

  /** The 29 identifier bits of a 32-bit id. */
  function IdBits(id: bv32): bv32 {
    id & 0xFFFFFFF8
  }

  function Sidh(id: bv32): bv8 {
    ((id & 0x00003FC0) >> 6) as bv8
  }

  /** Bit 3 is EXIDE: the identifier is an extended one. */
  function Sidl(id: bv32): bv8 {
    0x08 | ((id & 0xC0000000) >> 30) as bv8 | ((id & 0x00000038) << 2) as bv8
  }

  function Eid8(id: bv32): bv8 {
    ((id & 0x003FC000) >> 14) as bv8
  }

  function Eid0(id: bv32): bv8 {
    ((id & 0x3FC00000) >> 22) as bv8
  }

  /** Do two register values agree on the bits a mask register selects? */
  predicate Agree(x: bv8, y: bv8, m: bv8) {
    (x ^ y) & m == 0
  }

  predicate RegistersAgree(a: bv32, b: bv32, m: bv32) {
    && Agree(Sidh(a), Sidh(b), Sidh(m)) && Agree(Sidl(a), Sidl(b), Sidl(m))
    && Agree(Eid8(a), Eid8(b), Eid8(m)) && Agree(Eid0(a), Eid0(b), Eid0(m))
  }

  lemma Partition(x: bv32)
    ensures IdBits(x) == 0 <==>
            x & 0x00003FC0 == 0 && x & 0xC0000038 == 0 && x & 0x003FC000 == 0 && x & 0x3FC00000 == 0
  {
  }

  lemma IdBitsXor(x: bv32, y: bv32)
    ensures IdBits(x) ^ IdBits(y) == IdBits(x ^ y)
  {
  }

  lemma XorZero(x: bv32, y: bv32)
    ensures x ^ y == 0 <==> x == y
  {
  }

  lemma SameBits(x: bv32, y: bv32)
    ensures IdBits(x) == IdBits(y) <==> IdBits(x ^ y) == 0
  {
    hide IdBits;
    IdBitsXor(x, y);
    XorZero(IdBits(x), IdBits(y));
  }

  lemma MaskedXor(a: bv32, b: bv32, m: bv32)
    ensures (a ^ b) & m == (a & m) ^ (b & m)
  {
  }

  /** Compared under a mask, register by register, the fields agree exactly when the masked
      identifiers do. */
  lemma RegistersCompare(a: bv32, b: bv32, m: bv32)
    ensures IdBits(a & m) == IdBits(b & m) <==> RegistersAgree(a, b, m)
  {
    hide IdBits, RegistersAgree;
    MaskedXor(a, b, m);
    SameBits(a & m, b & m);
    Partition((a ^ b) & m);
    RegistersSplit(a, b, m);
  }

  lemma RegistersSplit(a: bv32, b: bv32, m: bv32)
    ensures RegistersAgree(a, b, m) <==>
            (a ^ b) & m & 0x00003FC0 == 0 && (a ^ b) & m & 0xC0000038 == 0 &&
            (a ^ b) & m & 0x003FC000 == 0 && (a ^ b) & m & 0x3FC00000 == 0
  {
    hide Sidh, Sidl, Eid8, Eid0, Agree;
    SidhCompares(a, b, m);
    SidlCompares(a, b, m);
    Eid8Compares(a, b, m);
    Eid0Compares(a, b, m);
  }

  lemma SidhCompares(a: bv32, b: bv32, m: bv32)
    ensures Agree(Sidh(a), Sidh(b), Sidh(m)) <==> (a ^ b) & m & 0x00003FC0 == 0
  {
  }

  lemma SidlCompares(a: bv32, b: bv32, m: bv32)
    ensures Agree(Sidl(a), Sidl(b), Sidl(m)) <==> (a ^ b) & m & 0xC0000038 == 0
  {
  }

  lemma Eid8Compares(a: bv32, b: bv32, m: bv32)
    ensures Agree(Eid8(a), Eid8(b), Eid8(m)) <==> (a ^ b) & m & 0x003FC000 == 0
  {
  }

  lemma Eid0Compares(a: bv32, b: bv32, m: bv32)
    ensures Agree(Eid0(a), Eid0(b), Eid0(m)) <==> (a ^ b) & m & 0x3FC00000 == 0
  {
  }

  /** The registers determine exactly the 29 identifier bits. */
  lemma RegistersInjective(a: bv32, b: bv32)
    ensures IdBits(a) == IdBits(b) <==>
            Sidh(a) == Sidh(b) && Sidl(a) == Sidl(b) && Eid8(a) == Eid8(b) && Eid0(a) == Eid0(b)
  {
    hide Sidh, Sidl, Eid8, Eid0;
    SidhDetermines(a, b);
    SidlDetermines(a, b);
    Eid8Determines(a, b);
    Eid0Determines(a, b);
    SameBits(a, b);
    Partition(a ^ b);
  }

  lemma SidhDetermines(a: bv32, b: bv32)
    ensures Sidh(a) == Sidh(b) <==> (a ^ b) & 0x00003FC0 == 0
  {
  }

  lemma SidlDetermines(a: bv32, b: bv32)
    ensures Sidl(a) == Sidl(b) <==> (a ^ b) & 0xC0000038 == 0
  {
  }

  lemma Eid8Determines(a: bv32, b: bv32)
    ensures Eid8(a) == Eid8(b) <==> (a ^ b) & 0x003FC000 == 0
  {
  }

  lemma Eid0Determines(a: bv32, b: bv32)
    ensures Eid0(a) == Eid0(b) <==> (a ^ b) & 0x3FC00000 == 0
  {
  }

  /** Two ids that differ in neither message type nor device agree under the command filter. */
  lemma FilteredAddress(id: bv32, target: bv8, dev: bv8)
    requires id & 0xFF000FFF == 0xCA000000
    ensures var received, filter := id | ((target as bv32) << 4) | 4, 0xCA000004 | ((dev as bv32) << 4) | 4;
            IdBits(received & 0xFF000FFC) == IdBits(filter & 0xFF000FFC) <==> target == dev
  {
  }
}
