/** The two constant lookup tables that turn a sub-cell bitmask into the
    character shown for one output cell. */
module Charsets {

  /** Quadrant block characters, indexed by a 4-bit mask (bit 0 top-left,
      bit 1 top-right, bit 2 bottom-left, bit 3 bottom-right). */
  const BlockCharset: string := " ▘▝▀▖▌▞▛▗▚▐▜▄▙▟█"

  /** Braille characters, indexed by an 8-bit mask: entry 0 is a plain space,
      entry m > 0 is the braille pattern U+2800 + m. Written as sixteen rows of
      sixteen entries. */
  const BrailleCharset: string :=
    BrailleRow0 + BrailleRow1 + BrailleRow2 + BrailleRow3
    + BrailleRow4 + BrailleRow5 + BrailleRow6 + BrailleRow7
    + BrailleRow8 + BrailleRow9 + BrailleRowA + BrailleRowB
    + BrailleRowC + BrailleRowD + BrailleRowE + BrailleRowF

  const BrailleRow0: string := " ⠁⠂⠃⠄⠅⠆⠇⠈⠉⠊⠋⠌⠍⠎⠏"
  const BrailleRow1: string := "⠐⠑⠒⠓⠔⠕⠖⠗⠘⠙⠚⠛⠜⠝⠞⠟"
  const BrailleRow2: string := "⠠⠡⠢⠣⠤⠥⠦⠧⠨⠩⠪⠫⠬⠭⠮⠯"
  const BrailleRow3: string := "⠰⠱⠲⠳⠴⠵⠶⠷⠸⠹⠺⠻⠼⠽⠾⠿"
  const BrailleRow4: string := "⡀⡁⡂⡃⡄⡅⡆⡇⡈⡉⡊⡋⡌⡍⡎⡏"
  const BrailleRow5: string := "⡐⡑⡒⡓⡔⡕⡖⡗⡘⡙⡚⡛⡜⡝⡞⡟"
  const BrailleRow6: string := "⡠⡡⡢⡣⡤⡥⡦⡧⡨⡩⡪⡫⡬⡭⡮⡯"
  const BrailleRow7: string := "⡰⡱⡲⡳⡴⡵⡶⡷⡸⡹⡺⡻⡼⡽⡾⡿"
  const BrailleRow8: string := "⢀⢁⢂⢃⢄⢅⢆⢇⢈⢉⢊⢋⢌⢍⢎⢏"
  const BrailleRow9: string := "⢐⢑⢒⢓⢔⢕⢖⢗⢘⢙⢚⢛⢜⢝⢞⢟"
  const BrailleRowA: string := "⢠⢡⢢⢣⢤⢥⢦⢧⢨⢩⢪⢫⢬⢭⢮⢯"
  const BrailleRowB: string := "⢰⢱⢲⢳⢴⢵⢶⢷⢸⢹⢺⢻⢼⢽⢾⢿"
  const BrailleRowC: string := "⣀⣁⣂⣃⣄⣅⣆⣇⣈⣉⣊⣋⣌⣍⣎⣏"
  const BrailleRowD: string := "⣐⣑⣒⣓⣔⣕⣖⣗⣘⣙⣚⣛⣜⣝⣞⣟"
  const BrailleRowE: string := "⣠⣡⣢⣣⣤⣥⣦⣧⣨⣩⣪⣫⣬⣭⣮⣯"
  const BrailleRowF: string := "⣰⣱⣲⣳⣴⣵⣶⣷⣸⣹⣺⣻⣼⣽⣾⣿"

  lemma BrailleRows01AreLineSafe()
    ensures |BrailleRow0| == 16 && '\n' !in BrailleRow0 && '\r' !in BrailleRow0
    ensures |BrailleRow1| == 16 && '\n' !in BrailleRow1 && '\r' !in BrailleRow1
  {
  }

  lemma BrailleRows23AreLineSafe()
    ensures |BrailleRow2| == 16 && '\n' !in BrailleRow2 && '\r' !in BrailleRow2
    ensures |BrailleRow3| == 16 && '\n' !in BrailleRow3 && '\r' !in BrailleRow3
  {
  }

  lemma BrailleRows45AreLineSafe()
    ensures |BrailleRow4| == 16 && '\n' !in BrailleRow4 && '\r' !in BrailleRow4
    ensures |BrailleRow5| == 16 && '\n' !in BrailleRow5 && '\r' !in BrailleRow5
  {
  }

  lemma BrailleRows67AreLineSafe()
    ensures |BrailleRow6| == 16 && '\n' !in BrailleRow6 && '\r' !in BrailleRow6
    ensures |BrailleRow7| == 16 && '\n' !in BrailleRow7 && '\r' !in BrailleRow7
  {
  }

  lemma BrailleRows89AreLineSafe()
    ensures |BrailleRow8| == 16 && '\n' !in BrailleRow8 && '\r' !in BrailleRow8
    ensures |BrailleRow9| == 16 && '\n' !in BrailleRow9 && '\r' !in BrailleRow9
  {
  }

  lemma BrailleRowsABAreLineSafe()
    ensures |BrailleRowA| == 16 && '\n' !in BrailleRowA && '\r' !in BrailleRowA
    ensures |BrailleRowB| == 16 && '\n' !in BrailleRowB && '\r' !in BrailleRowB
  {
  }

  lemma BrailleRowsCDAreLineSafe()
    ensures |BrailleRowC| == 16 && '\n' !in BrailleRowC && '\r' !in BrailleRowC
    ensures |BrailleRowD| == 16 && '\n' !in BrailleRowD && '\r' !in BrailleRowD
  {
  }

  lemma BrailleRowsEFAreLineSafe()
    ensures |BrailleRowE| == 16 && '\n' !in BrailleRowE && '\r' !in BrailleRowE
    ensures |BrailleRowF| == 16 && '\n' !in BrailleRowF && '\r' !in BrailleRowF
  {
  }

  /** Both tables are total over their masks, map the empty mask to a space and
      hold no line break, so a row of table characters is one text line. */
  lemma CharsetsAreLineSafe()
    ensures |BlockCharset| == 16 && |BrailleCharset| == 256
    ensures BlockCharset[0] == ' ' && BrailleCharset[0] == ' '
    ensures '\n' !in BlockCharset && '\r' !in BlockCharset
    ensures '\n' !in BrailleCharset && '\r' !in BrailleCharset
  {
    BrailleRows01AreLineSafe();
    BrailleRows23AreLineSafe();
    BrailleRows45AreLineSafe();
    BrailleRows67AreLineSafe();
    BrailleRows89AreLineSafe();
    BrailleRowsABAreLineSafe();
    BrailleRowsCDAreLineSafe();
    BrailleRowsEFAreLineSafe();
  }
}
