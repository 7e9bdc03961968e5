/** Small numbers as bytes. */
module ByteValues {

  lemma ByteBack(i: int)
    requires 0 <= i < 256
    ensures (i as bv8) as int == i
  {
    if i < 128 {
      if i < 64 { FirstQuarter(i); } else { SecondQuarter(i); }
    } else {
      if i < 192 { ThirdQuarter(i); } else { FourthQuarter(i); }
    }
  }

  /** Ranges of eight numbers: bounds for the upper bits spare the solver a search. */
  lemma FirstQuarter(i: int)
    requires 0 <= i < 64
    ensures (i as bv8) as int == i
  {
    if i < 32 {
      if i < 16 { if i < 8 {} else {} } else { if i < 24 {} else {} }
    } else {
      if i < 48 { if i < 40 {} else {} } else { if i < 56 {} else {} }
    }
  }

  lemma SecondQuarter(i: int)
    requires 64 <= i < 128
    ensures (i as bv8) as int == i
  {
    if i < 96 {
      if i < 80 { if i < 72 {} else {} } else { if i < 88 {} else {} }
    } else {
      if i < 112 { if i < 104 {} else {} } else { if i < 120 {} else {} }
    }
  }

  lemma ThirdQuarter(i: int)
    requires 128 <= i < 192
    ensures (i as bv8) as int == i
  {
    if i < 160 {
      if i < 144 { if i < 136 {} else {} } else { if i < 152 {} else {} }
    } else {
      if i < 176 { if i < 168 {} else {} } else { if i < 184 {} else {} }
    }
  }

  lemma FourthQuarter(i: int)
    requires 192 <= i < 256
    ensures (i as bv8) as int == i
  {
    if i < 224 {
      if i < 208 { if i < 200 {} else {} } else { if i < 216 {} else {} }
    } else {
      if i < 240 { if i < 232 {} else {} } else { if i < 248 {} else {} }
    }
  }

  /** Different small numbers are different bytes. */
  lemma ByteTellsNumber(i: int, j: int)
    requires 0 <= i < 256 && 0 <= j < 256 && (i as bv8) == (j as bv8)
    ensures i == j
  {
    ByteBack(i);
    ByteBack(j);
  }
}
