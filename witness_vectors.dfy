/**
 * The witness-address vectors. Each program is fixed byte by byte in a predicate; its value, its
 * five-bit words, the checksum residue and the text of each address are then worked out a few
 * positions at a time, each stretch in a lemma of its own.
 *
 * The numbered lemmas are the stretches of one chain per vector, each taking up the number the
 * one before it ends with:
 *   - `…Value0`, `…Value1`, … give the value of the first 8, 16, … bytes; `…Value` the whole.
 *   - `…Words{k}` read four five-bit words off that value by exact division, from the end;
 *     `…WordsAt{k}` state words 4k to 4k+3 of `Segwit.ToWords` of the program.
 *   - `…Residue{k}` feed four of those words into the checksum residue, starting from the
 *     residue after the expanded human-readable part and the version; `…WordsResidue` collects
 *     them, `…Residue` adds the six zero words, and `…Checksum` reads off the six symbols.
 *   - `…Chars{k}` turn four words into characters, `…ProgramChars` and `…WordChars` collect them,
 *     and `…ChecksumChars` does the same for the checksum.
 *   - `…Assemble{k}` place sixteen characters of the text at a time, `…Assemble`, `…Literal` and
 *     `…Glue` join them into the literal, `…Text` equates it with `Segwit.Encode`, and the lemma
 *     named after the vector states the address's text.
 */
module WitnessVectors {
  import opened Wrappers
  import opened Radix
  import opened Evaluation
  import Bech32
  import Segwit
  import Base58Check
  import Networks
  import Address

  /** The residue of the expanded human-readable part "bc". */
  lemma HrpResidueBC()
    ensures Bech32.HrpExpand("bc") == [3, 3, 0, 2, 3]
    ensures Bech32.PolymodFrom(1, Bech32.HrpExpand("bc")) == 36798531
  {
    var vs := Bech32.HrpExpand("bc");
    ResidueNext(1, vs, 0, 1, 3, 35);
    ResidueNext(1, vs, 1, 35, 3, 1123);
    ResidueNext(1, vs, 2, 1123, 0, 35936);
    ResidueNext(1, vs, 3, 35936, 2, 1149954);
    ResidueNext(1, vs, 4, 1149954, 3, 36798531);
    ResidueAll(1, vs);
  }

  /** The residue of the expanded human-readable part "tb". */
  lemma HrpResidueTB()
    ensures Bech32.HrpExpand("tb") == [3, 3, 0, 20, 2]
    ensures Bech32.PolymodFrom(1, Bech32.HrpExpand("tb")) == 36799106
  {
    var vs := Bech32.HrpExpand("tb");
    ResidueNext(1, vs, 0, 1, 3, 35);
    ResidueNext(1, vs, 1, 35, 3, 1123);
    ResidueNext(1, vs, 2, 1123, 0, 35936);
    ResidueNext(1, vs, 3, 35936, 20, 1149972);
    ResidueNext(1, vs, 4, 1149972, 2, 36799106);
    ResidueAll(1, vs);
  }

  /** The witness program holding the 20-byte key hash 751e76e8199196d454941c45d1b3a323f1433bd6. */
  predicate WpkhProgram(p: seq<byte>) {
    |p| == 20 && p[0] == 0x75 && p[1] == 0x1e && p[2] == 0x76 && p[3] == 0xe8 && p[4] == 0x19 &&
    p[5] == 0x91 && p[6] == 0x96 && p[7] == 0xd4 && p[8] == 0x54 && p[9] == 0x94 &&
    p[10] == 0x1c && p[11] == 0x45 && p[12] == 0xd1 && p[13] == 0xb3 && p[14] == 0xa3 &&
    p[15] == 0x23 && p[16] == 0xf1 && p[17] == 0x43 && p[18] == 0x3b && p[19] == 0xd6
  }

  lemma WpkhValue0(p: seq<byte>)
    requires WpkhProgram(p) && FromDigits(p[..0], 256) == 0
    ensures FromDigits(p[..8], 256) == 8439313490972350164
  {
    ValueNext(p, 256, 0, 0, 117, 117);
    ValueNext(p, 256, 1, 117, 30, 29982);
    ValueNext(p, 256, 2, 29982, 118, 7675510);
    ValueNext(p, 256, 3, 7675510, 232, 1964930792);
    ValueNext(p, 256, 4, 1964930792, 25, 503022282777);
    ValueNext(p, 256, 5, 503022282777, 145, 128773704391057);
    ValueNext(p, 256, 6, 128773704391057, 150, 32966068324110742);
    ValueNext(p, 256, 7, 32966068324110742, 212, 8439313490972350164);
  }

  lemma WpkhValue1(p: seq<byte>)
    requires WpkhProgram(p) && FromDigits(p[..8], 256) == 8439313490972350164
    ensures FromDigits(p[..16], 256) == 155677856125771267926192137724119720739
  {
    ValueNext(p, 256, 8, 8439313490972350164, 84, 2160464253688921642068);
    ValueNext(p, 256, 9, 2160464253688921642068, 148, 553078848944363940369556);
    ValueNext(p, 256, 10, 553078848944363940369556, 28, 141588185329757168734606364);
    ValueNext(p, 256, 11, 141588185329757168734606364, 69, 36246575444417835196059229253);
    ValueNext(p, 256, 12, 36246575444417835196059229253, 209, 9279123313770965810191162688977);
    ValueNext(p, 256, 13, 9279123313770965810191162688977, 179, 2375455568325367247408937648378291);
    ValueNext(p, 256, 14, 2375455568325367247408937648378291, 163, 608116625491294015336688037984842659);
    ValueNext(p, 256, 15, 608116625491294015336688037984842659, 35, 155677856125771267926192137724119720739);
  }

  lemma WpkhValue2(p: seq<byte>)
    requires WpkhProgram(p) && FromDigits(p[..16], 256) == 155677856125771267926192137724119720739
    ensures FromDigits(p[..20], 256) == 668631300771580858519448973337422070966705667030
  {
    ValueNext(p, 256, 16, 155677856125771267926192137724119720739, 241, 39853531168197444589105187257374648509425);
    ValueNext(p, 256, 17, 39853531168197444589105187257374648509425, 67, 10202503979058545814810927937887910018412867);
    ValueNext(p, 256, 18, 10202503979058545814810927937887910018412867, 59, 2611841018638987728591597552099304964713694011);
    ValueNext(p, 256, 19, 2611841018638987728591597552099304964713694011, 214, 668631300771580858519448973337422070966705667030);
  }

  lemma WpkhValue(p: seq<byte>)
    requires WpkhProgram(p)
    ensures FromDigits(p, 256) == 668631300771580858519448973337422070966705667030
  {
    ValueStart(p, 256);
    WpkhValue0(p);
    WpkhValue1(p);
    WpkhValue2(p);
    ValueAll(p, 256);
  }

  lemma WpkhWords0(ws: seq<Bech32.u5>)
    requires |ws| == 32 && FromDigits(Segwit.Nats(ws)[..4], 32) == 479719
    ensures FromDigits(Segwit.Nats(ws)[..0], 32) == 0
    ensures ws[0] == 14 && ws[1] == 20 && ws[2] == 15 && ws[3] == 7
  {
    var ns := Segwit.Nats(ws);
    DigitBack(ns, 32, 4, 479719, 14991, 7);
    Segwit.NatOf(ws[3]);
    DigitBack(ns, 32, 3, 14991, 468, 15);
    Segwit.NatOf(ws[2]);
    DigitBack(ns, 32, 2, 468, 14, 20);
    Segwit.NatOf(ws[1]);
    DigitBack(ns, 32, 1, 14, 0, 14);
    Segwit.NatOf(ws[0]);
  }

  lemma WpkhWords1(ws: seq<Bech32.u5>)
    requires |ws| == 32 && FromDigits(Segwit.Nats(ws)[..8], 32) == 503022282777
    ensures FromDigits(Segwit.Nats(ws)[..4], 32) == 479719
    ensures ws[4] == 13 && ws[5] == 26 && ws[6] == 0 && ws[7] == 25
  {
    var ns := Segwit.Nats(ws);
    DigitBack(ns, 32, 8, 503022282777, 15719446336, 25);
    Segwit.NatOf(ws[7]);
    DigitBack(ns, 32, 7, 15719446336, 491232698, 0);
    Segwit.NatOf(ws[6]);
    DigitBack(ns, 32, 6, 491232698, 15351021, 26);
    Segwit.NatOf(ws[5]);
    DigitBack(ns, 32, 5, 15351021, 479719, 13);
    Segwit.NatOf(ws[4]);
  }

  lemma WpkhWords2(ws: seq<Bech32.u5>)
    requires |ws| == 32 && FromDigits(Segwit.Nats(ws)[..12], 32) == 527457093185771885
    ensures FromDigits(Segwit.Nats(ws)[..8], 32) == 503022282777
    ensures ws[8] == 18 && ws[9] == 6 && ws[10] == 11 && ws[11] == 13
  {
    var ns := Segwit.Nats(ws);
    DigitBack(ns, 32, 12, 527457093185771885, 16483034162055371, 13);
    Segwit.NatOf(ws[11]);
    DigitBack(ns, 32, 11, 16483034162055371, 515094817564230, 11);
    Segwit.NatOf(ws[10]);
    DigitBack(ns, 32, 10, 515094817564230, 16096713048882, 6);
    Segwit.NatOf(ws[9]);
    DigitBack(ns, 32, 9, 16096713048882, 503022282777, 18);
    Segwit.NatOf(ws[8]);
  }

  lemma WpkhWords3(ws: seq<Bech32.u5>)
    requires |ws| == 32 && FromDigits(Segwit.Nats(ws)[..16], 32) == 553078848944363940369556
    ensures FromDigits(Segwit.Nats(ws)[..12], 32) == 527457093185771885
    ensures ws[12] == 8 && ws[13] == 21 && ws[14] == 4 && ws[15] == 20
  {
    var ns := Segwit.Nats(ws);
    DigitBack(ns, 32, 16, 553078848944363940369556, 17283714029511373136548, 20);
    Segwit.NatOf(ws[15]);
    DigitBack(ns, 32, 15, 17283714029511373136548, 540116063422230410517, 4);
    Segwit.NatOf(ws[14]);
    DigitBack(ns, 32, 14, 540116063422230410517, 16878626981944700328, 21);
    Segwit.NatOf(ws[13]);
    DigitBack(ns, 32, 13, 16878626981944700328, 527457093185771885, 8);
    Segwit.NatOf(ws[12]);
  }

  lemma WpkhWords4(ws: seq<Bech32.u5>)
    requires |ws| == 32 && FromDigits(Segwit.Nats(ws)[..20], 32) == 579945207110685363136947668061
    ensures FromDigits(Segwit.Nats(ws)[..16], 32) == 553078848944363940369556
    ensures ws[16] == 3 && ws[17] == 17 && ws[18] == 2 && ws[19] == 29
  {
    var ns := Segwit.Nats(ws);
    DigitBack(ns, 32, 20, 579945207110685363136947668061, 18123287722208917598029614626, 29);
    Segwit.NatOf(ws[19]);
    DigitBack(ns, 32, 19, 18123287722208917598029614626, 566352741319028674938425457, 2);
    Segwit.NatOf(ws[18]);
    DigitBack(ns, 32, 18, 566352741319028674938425457, 17698523166219646091825795, 17);
    Segwit.NatOf(ws[17]);
    DigitBack(ns, 32, 17, 17698523166219646091825795, 553078848944363940369556, 3);
    Segwit.NatOf(ws[16]);
  }

  lemma WpkhWords5(ws: seq<Bech32.u5>)
    requires |ws| == 32 && FromDigits(Segwit.Nats(ws)[..24], 32) == 608116625491294015336688037984842659
    ensures FromDigits(Segwit.Nats(ws)[..20], 32) == 579945207110685363136947668061
    ensures ws[20] == 3 && ws[21] == 12 && ws[22] == 29 && ws[23] == 3
  {
    var ns := Segwit.Nats(ws);
    DigitBack(ns, 32, 24, 608116625491294015336688037984842659, 19003644546602937979271501187026333, 3);
    Segwit.NatOf(ws[23]);
    DigitBack(ns, 32, 23, 19003644546602937979271501187026333, 593863892081341811852234412094572, 29);
    Segwit.NatOf(ws[22]);
    DigitBack(ns, 32, 22, 593863892081341811852234412094572, 18558246627541931620382325377955, 12);
    Segwit.NatOf(ws[21]);
    DigitBack(ns, 32, 21, 18558246627541931620382325377955, 579945207110685363136947668061, 3);
    Segwit.NatOf(ws[20]);
  }

  lemma WpkhWords6(ws: seq<Bech32.u5>)
    requires |ws| == 32 && FromDigits(Segwit.Nats(ws)[..28], 32) == 637656498691159113425682996117994376150804
    ensures FromDigits(Segwit.Nats(ws)[..24], 32) == 608116625491294015336688037984842659
    ensures ws[24] == 4 && ws[25] == 15 && ws[26] == 24 && ws[27] == 20
  {
    var ns := Segwit.Nats(ws);
    DigitBack(ns, 32, 28, 637656498691159113425682996117994376150804, 19926765584098722294552593628687324254712, 20);
    Segwit.NatOf(ws[27]);
    DigitBack(ns, 32, 27, 19926765584098722294552593628687324254712, 622711424503085071704768550896478882959, 24);
    Segwit.NatOf(ws[26]);
    DigitBack(ns, 32, 26, 622711424503085071704768550896478882959, 19459732015721408490774017215514965092, 15);
    Segwit.NatOf(ws[25]);
    DigitBack(ns, 32, 25, 19459732015721408490774017215514965092, 608116625491294015336688037984842659, 4);
    Segwit.NatOf(ws[24]);
  }

  lemma WpkhWords7(ws: seq<Bech32.u5>)
    requires |ws| == 32 && FromDigits(Segwit.Nats(ws)[..32], 32) == 668631300771580858519448973337422070966705667030
    ensures FromDigits(Segwit.Nats(ws)[..28], 32) == 637656498691159113425682996117994376150804
    ensures ws[28] == 6 && ws[29] == 14 && ws[30] == 30 && ws[31] == 22
  {
    var ns := Segwit.Nats(ws);
    DigitBack(ns, 32, 32, 668631300771580858519448973337422070966705667030, 20894728149111901828732780416794439717709552094, 22);
    Segwit.NatOf(ws[31]);
    DigitBack(ns, 32, 31, 20894728149111901828732780416794439717709552094, 652960254659746932147899388024826241178423502, 30);
    Segwit.NatOf(ws[30]);
    DigitBack(ns, 32, 30, 652960254659746932147899388024826241178423502, 20405007958117091629621855875775820036825734, 14);
    Segwit.NatOf(ws[29]);
    DigitBack(ns, 32, 29, 20405007958117091629621855875775820036825734, 637656498691159113425682996117994376150804, 6);
    Segwit.NatOf(ws[28]);
  }

  /** The program's five-bit words, read off its value a few at a time from the end. */
  lemma WpkhWordsAt7(p: seq<byte>)
    requires WpkhProgram(p)
    ensures |Segwit.ToWords(p)| == 32 && FromDigits(Segwit.Nats(Segwit.ToWords(p))[..28], 32) == 637656498691159113425682996117994376150804
    ensures Segwit.ToWords(p)[28] == 6 && Segwit.ToWords(p)[29] == 14 &&
            Segwit.ToWords(p)[30] == 30 && Segwit.ToWords(p)[31] == 22
  {
    WpkhValue(p);
    WordsValue(p);
    assert Pow(2, 0) == 1;
    ValueAll(Segwit.Nats(Segwit.ToWords(p)), 32);
    WpkhWords7(Segwit.ToWords(p));
  }

  lemma WpkhWordsAt6(p: seq<byte>)
    requires WpkhProgram(p)
    ensures |Segwit.ToWords(p)| == 32 && FromDigits(Segwit.Nats(Segwit.ToWords(p))[..24], 32) == 608116625491294015336688037984842659
    ensures Segwit.ToWords(p)[24] == 4 && Segwit.ToWords(p)[25] == 15 &&
            Segwit.ToWords(p)[26] == 24 && Segwit.ToWords(p)[27] == 20
  {
    WpkhWordsAt7(p);
    WpkhWords6(Segwit.ToWords(p));
  }

  lemma WpkhWordsAt5(p: seq<byte>)
    requires WpkhProgram(p)
    ensures |Segwit.ToWords(p)| == 32 && FromDigits(Segwit.Nats(Segwit.ToWords(p))[..20], 32) == 579945207110685363136947668061
    ensures Segwit.ToWords(p)[20] == 3 && Segwit.ToWords(p)[21] == 12 &&
            Segwit.ToWords(p)[22] == 29 && Segwit.ToWords(p)[23] == 3
  {
    WpkhWordsAt6(p);
    WpkhWords5(Segwit.ToWords(p));
  }

  lemma WpkhWordsAt4(p: seq<byte>)
    requires WpkhProgram(p)
    ensures |Segwit.ToWords(p)| == 32 && FromDigits(Segwit.Nats(Segwit.ToWords(p))[..16], 32) == 553078848944363940369556
    ensures Segwit.ToWords(p)[16] == 3 && Segwit.ToWords(p)[17] == 17 &&
            Segwit.ToWords(p)[18] == 2 && Segwit.ToWords(p)[19] == 29
  {
    WpkhWordsAt5(p);
    WpkhWords4(Segwit.ToWords(p));
  }

  lemma WpkhWordsAt3(p: seq<byte>)
    requires WpkhProgram(p)
    ensures |Segwit.ToWords(p)| == 32 && FromDigits(Segwit.Nats(Segwit.ToWords(p))[..12], 32) == 527457093185771885
    ensures Segwit.ToWords(p)[12] == 8 && Segwit.ToWords(p)[13] == 21 &&
            Segwit.ToWords(p)[14] == 4 && Segwit.ToWords(p)[15] == 20
  {
    WpkhWordsAt4(p);
    WpkhWords3(Segwit.ToWords(p));
  }

  lemma WpkhWordsAt2(p: seq<byte>)
    requires WpkhProgram(p)
    ensures |Segwit.ToWords(p)| == 32 && FromDigits(Segwit.Nats(Segwit.ToWords(p))[..8], 32) == 503022282777
    ensures Segwit.ToWords(p)[8] == 18 && Segwit.ToWords(p)[9] == 6 &&
            Segwit.ToWords(p)[10] == 11 && Segwit.ToWords(p)[11] == 13
  {
    WpkhWordsAt3(p);
    WpkhWords2(Segwit.ToWords(p));
  }

  lemma WpkhWordsAt1(p: seq<byte>)
    requires WpkhProgram(p)
    ensures |Segwit.ToWords(p)| == 32 && FromDigits(Segwit.Nats(Segwit.ToWords(p))[..4], 32) == 479719
    ensures Segwit.ToWords(p)[4] == 13 && Segwit.ToWords(p)[5] == 26 &&
            Segwit.ToWords(p)[6] == 0 && Segwit.ToWords(p)[7] == 25
  {
    WpkhWordsAt2(p);
    WpkhWords1(Segwit.ToWords(p));
  }

  lemma WpkhWordsAt0(p: seq<byte>)
    requires WpkhProgram(p)
    ensures |Segwit.ToWords(p)| == 32 && FromDigits(Segwit.Nats(Segwit.ToWords(p))[..0], 32) == 0
    ensures Segwit.ToWords(p)[0] == 14 && Segwit.ToWords(p)[1] == 20 &&
            Segwit.ToWords(p)[2] == 15 && Segwit.ToWords(p)[3] == 7
  {
    WpkhWordsAt1(p);
    WpkhWords0(Segwit.ToWords(p));
  }

  /** The witness program holding the 32-byte script hash 1863143c14c51668 04bd19203356da13 6c985678cd4d27a1 b8c6329604903262. */
  predicate WshProgram(p: seq<byte>) {
    |p| == 32 && p[0] == 0x18 && p[1] == 0x63 && p[2] == 0x14 && p[3] == 0x3c && p[4] == 0x14 &&
    p[5] == 0xc5 && p[6] == 0x16 && p[7] == 0x68 && p[8] == 0x04 && p[9] == 0xbd &&
    p[10] == 0x19 && p[11] == 0x20 && p[12] == 0x33 && p[13] == 0x56 && p[14] == 0xda &&
    p[15] == 0x13 && p[16] == 0x6c && p[17] == 0x98 && p[18] == 0x56 && p[19] == 0x78 &&
    p[20] == 0xcd && p[21] == 0x4d && p[22] == 0x27 && p[23] == 0xa1 && p[24] == 0xb8 &&
    p[25] == 0xc6 && p[26] == 0x32 && p[27] == 0x96 && p[28] == 0x04 && p[29] == 0x90 &&
    p[30] == 0x32 && p[31] == 0x62
  }

  lemma WshValue0(p: seq<byte>)
    requires WshProgram(p) && FromDigits(p[..0], 256) == 0
    ensures FromDigits(p[..8], 256) == 1757270527883679336
  {
    ValueNext(p, 256, 0, 0, 24, 24);
    ValueNext(p, 256, 1, 24, 99, 6243);
    ValueNext(p, 256, 2, 6243, 20, 1598228);
    ValueNext(p, 256, 3, 1598228, 60, 409146428);
    ValueNext(p, 256, 4, 409146428, 20, 104741485588);
    ValueNext(p, 256, 5, 104741485588, 197, 26813820310725);
    ValueNext(p, 256, 6, 26813820310725, 22, 6864337999545622);
    ValueNext(p, 256, 7, 6864337999545622, 104, 1757270527883679336);
  }

  lemma WshValue1(p: seq<byte>)
    requires WshProgram(p) && FromDigits(p[..8], 256) == 1757270527883679336
    ensures FromDigits(p[..16], 256) == 32415919696142717167941070033725610515
  {
    ValueNext(p, 256, 8, 1757270527883679336, 4, 449861255138221910020);
    ValueNext(p, 256, 9, 449861255138221910020, 189, 115164481315384808965309);
    ValueNext(p, 256, 10, 115164481315384808965309, 25, 29482107216738511095119129);
    ValueNext(p, 256, 11, 29482107216738511095119129, 32, 7547419447485058840350497056);
    ValueNext(p, 256, 12, 7547419447485058840350497056, 51, 1932139378556175063129727246387);
    ValueNext(p, 256, 13, 1932139378556175063129727246387, 86, 494627680910380816161210175075158);
    ValueNext(p, 256, 14, 494627680910380816161210175075158, 218, 126624686313057488937269804819240666);
    ValueNext(p, 256, 15, 126624686313057488937269804819240666, 19, 32415919696142717167941070033725610515);
  }

  lemma WshValue2(p: seq<byte>)
    requires WshProgram(p) && FromDigits(p[..16], 256) == 32415919696142717167941070033725610515
    ensures FromDigits(p[..24], 256) == 597968174548665397084356573191049345518907008465901528993
  {
    ValueNext(p, 256, 16, 32415919696142717167941070033725610515, 108, 8298475442212535594992913928633756291948);
    ValueNext(p, 256, 17, 8298475442212535594992913928633756291948, 152, 2124409713206409112318185965730241610738840);
    ValueNext(p, 256, 18, 2124409713206409112318185965730241610738840, 86, 543848886580840732753455607226941852349143126);
    ValueNext(p, 256, 19, 543848886580840732753455607226941852349143126, 120, 139225314964695227584884635450097114201380640376);
    ValueNext(p, 256, 20, 139225314964695227584884635450097114201380640376, 205, 35641680630961978261730466675224861235553443936461);
    ValueNext(p, 256, 21, 35641680630961978261730466675224861235553443936461, 77, 9124270241526266435002999468857564476301681647734093);
    ValueNext(p, 256, 22, 9124270241526266435002999468857564476301681647734093, 39, 2335813181830724207360767864027536505933230501819927847);
    ValueNext(p, 256, 23, 2335813181830724207360767864027536505933230501819927847, 161, 597968174548665397084356573191049345518907008465901528993);
  }

  lemma WshValue3(p: seq<byte>)
    requires WshProgram(p) && FromDigits(p[..24], 256) == 597968174548665397084356573191049345518907008465901528993
    ensures FromDigits(p[..32], 256) == 11030565880122512148293621700675067105929358307705212678977280904251124494946
  {
    ValueNext(p, 256, 24, 597968174548665397084356573191049345518907008465901528993, 184, 153079852684458341653595282736908632452840194167270791422392);
    ValueNext(p, 256, 25, 153079852684458341653595282736908632452840194167270791422392, 198, 39188442287221335463320392380648609907927089706821322604132550);
    ValueNext(p, 256, 26, 39188442287221335463320392380648609907927089706821322604132550, 50, 10032241225528661878610020449446044136429334964946258586657932850);
    ValueNext(p, 256, 27, 10032241225528661878610020449446044136429334964946258586657932850, 150, 2568253753735337440924165235058187298925909751026242198184430809750);
    ValueNext(p, 256, 28, 2568253753735337440924165235058187298925909751026242198184430809750, 4, 657472960956246384876586300174895948525032896262718002735214287296004);
    ValueNext(p, 256, 29, 657472960956246384876586300174895948525032896262718002735214287296004, 144, 168313078004799074528406092844773362822408421443255808700214857547777168);
    ValueNext(p, 256, 30, 168313078004799074528406092844773362822408421443255808700214857547777168, 50, 43088147969228563079271959768261980882536555889473487027255003532230955058);
    ValueNext(p, 256, 31, 43088147969228563079271959768261980882536555889473487027255003532230955058, 98, 11030565880122512148293621700675067105929358307705212678977280904251124494946);
  }

  lemma WshValue(p: seq<byte>)
    requires WshProgram(p)
    ensures FromDigits(p, 256) == 11030565880122512148293621700675067105929358307705212678977280904251124494946
  {
    ValueStart(p, 256);
    WshValue0(p);
    WshValue1(p);
    WshValue2(p);
    WshValue3(p);
    ValueAll(p, 256);
  }

  lemma WshWords0(ws: seq<Bech32.u5>)
    requires |ws| == 52 && FromDigits(Segwit.Nats(ws)[..4], 32) == 99889
    ensures FromDigits(Segwit.Nats(ws)[..0], 32) == 0
    ensures ws[0] == 3 && ws[1] == 1 && ws[2] == 17 && ws[3] == 17
  {
    var ns := Segwit.Nats(ws);
    DigitBack(ns, 32, 4, 99889, 3121, 17);
    Segwit.NatOf(ws[3]);
    DigitBack(ns, 32, 3, 3121, 97, 17);
    Segwit.NatOf(ws[2]);
    DigitBack(ns, 32, 2, 97, 3, 1);
    Segwit.NatOf(ws[1]);
    DigitBack(ns, 32, 1, 3, 0, 3);
    Segwit.NatOf(ws[0]);
  }

  lemma WshWords1(ws: seq<Bech32.u5>)
    requires |ws| == 52 && FromDigits(Segwit.Nats(ws)[..8], 32) == 104741485588
    ensures FromDigits(Segwit.Nats(ws)[..4], 32) == 99889
    ensures ws[4] == 8 && ws[5] == 15 && ws[6] == 0 && ws[7] == 20
  {
    var ns := Segwit.Nats(ws);
    DigitBack(ns, 32, 8, 104741485588, 3273171424, 20);
    Segwit.NatOf(ws[7]);
    DigitBack(ns, 32, 7, 3273171424, 102286607, 0);
    Segwit.NatOf(ws[6]);
    DigitBack(ns, 32, 6, 102286607, 3196456, 15);
    Segwit.NatOf(ws[5]);
    DigitBack(ns, 32, 5, 3196456, 99889, 8);
    Segwit.NatOf(ws[4]);
  }

  lemma WshWords2(ws: seq<Bech32.u5>)
    requires |ws| == 52 && FromDigits(Segwit.Nats(ws)[..12], 32) == 109829407992729958
    ensures FromDigits(Segwit.Nats(ws)[..8], 32) == 104741485588
    ensures ws[8] == 24 && ws[9] == 20 && ws[10] == 11 && ws[11] == 6
  {
    var ns := Segwit.Nats(ws);
    DigitBack(ns, 32, 12, 109829407992729958, 3432168999772811, 6);
    Segwit.NatOf(ws[11]);
    DigitBack(ns, 32, 11, 3432168999772811, 107255281242900, 11);
    Segwit.NatOf(ws[10]);
    DigitBack(ns, 32, 10, 107255281242900, 3351727538840, 20);
    Segwit.NatOf(ws[9]);
    DigitBack(ns, 32, 9, 3351727538840, 104741485588, 24);
    Segwit.NatOf(ws[8]);
  }

  lemma WshWords3(ws: seq<Bech32.u5>)
    requires |ws| == 52 && FromDigits(Segwit.Nats(ws)[..16], 32) == 115164481315384808965309
    ensures FromDigits(Segwit.Nats(ws)[..12], 32) == 109829407992729958
    ensures ws[12] == 16 && ws[13] == 1 && ws[14] == 5 && ws[15] == 29
  {
    var ns := Segwit.Nats(ws);
    DigitBack(ns, 32, 16, 115164481315384808965309, 3598890041105775280165, 29);
    Segwit.NatOf(ws[15]);
    DigitBack(ns, 32, 15, 3598890041105775280165, 112465313784555477505, 5);
    Segwit.NatOf(ws[14]);
    DigitBack(ns, 32, 14, 112465313784555477505, 3514541055767358672, 1);
    Segwit.NatOf(ws[13]);
    DigitBack(ns, 32, 13, 3514541055767358672, 109829407992729958, 16);
    Segwit.NatOf(ws[12]);
  }

  lemma WshWords4(ws: seq<Bech32.u5>)
    requires |ws| == 52 && FromDigits(Segwit.Nats(ws)[..20], 32) == 120758711159760941445607952899
    ensures FromDigits(Segwit.Nats(ws)[..16], 32) == 115164481315384808965309
    ensures ws[16] == 3 && ws[17] == 4 && ws[18] == 16 && ws[19] == 3
  {
    var ns := Segwit.Nats(ws);
    DigitBack(ns, 32, 20, 120758711159760941445607952899, 3773709723742529420175248528, 3);
    Segwit.NatOf(ws[19]);
    DigitBack(ns, 32, 19, 3773709723742529420175248528, 117928428866954044380476516, 16);
    Segwit.NatOf(ws[18]);
    DigitBack(ns, 32, 18, 117928428866954044380476516, 3685263402092313886889891, 4);
    Segwit.NatOf(ws[17]);
    DigitBack(ns, 32, 17, 3685263402092313886889891, 115164481315384808965309, 3);
    Segwit.NatOf(ws[16]);
  }

  lemma WshWords5(ws: seq<Bech32.u5>)
    requires |ws| == 52 && FromDigits(Segwit.Nats(ws)[..24], 32) == 126624686313057488937269804819240666
    ensures FromDigits(Segwit.Nats(ws)[..20], 32) == 120758711159760941445607952899
    ensures ws[20] == 6 && ws[21] == 21 && ws[22] == 22 && ws[23] == 26
  {
    var ns := Segwit.Nats(ws);
    DigitBack(ns, 32, 24, 126624686313057488937269804819240666, 3957021447283046529289681400601270, 26);
    Segwit.NatOf(ws[23]);
    DigitBack(ns, 32, 23, 3957021447283046529289681400601270, 123656920227595204040302543768789, 22);
    Segwit.NatOf(ws[22]);
    DigitBack(ns, 32, 22, 123656920227595204040302543768789, 3864278757112350126259454492774, 21);
    Segwit.NatOf(ws[21]);
    DigitBack(ns, 32, 21, 3864278757112350126259454492774, 120758711159760941445607952899, 6);
    Segwit.NatOf(ws[20]);
  }

  lemma WshWords6(ws: seq<Bech32.u5>)
    requires |ws| == 52 && FromDigits(Segwit.Nats(ws)[..28], 32) == 132775607075400569519886622858140100671177
    ensures FromDigits(Segwit.Nats(ws)[..24], 32) == 126624686313057488937269804819240666
    ensures ws[24] == 2 && ws[25] == 13 && ws[26] == 22 && ws[27] == 9
  {
    var ns := Segwit.Nats(ws);
    DigitBack(ns, 32, 28, 132775607075400569519886622858140100671177, 4149237721106267797496456964316878145974, 9);
    Segwit.NatOf(ws[27]);
    DigitBack(ns, 32, 27, 4149237721106267797496456964316878145974, 129663678784570868671764280134902442061, 22);
    Segwit.NatOf(ws[26]);
    DigitBack(ns, 32, 26, 129663678784570868671764280134902442061, 4051989962017839645992633754215701314, 13);
    Segwit.NatOf(ws[25]);
    DigitBack(ns, 32, 25, 4051989962017839645992633754215701314, 126624686313057488937269804819240666, 2);
    Segwit.NatOf(ws[24]);
  }

  lemma WshWords7(ws: seq<Bech32.u5>)
    requires |ws| == 52 && FromDigits(Segwit.Nats(ws)[..32], 32) == 139225314964695227584884635450097114201380640376
    ensures FromDigits(Segwit.Nats(ws)[..28], 32) == 132775607075400569519886622858140100671177
    ensures ws[28] == 16 && ws[29] == 21 && ws[30] == 19 && ws[31] == 24
  {
    var ns := Segwit.Nats(ws);
    DigitBack(ns, 32, 32, 139225314964695227584884635450097114201380640376, 4350791092646725862027644857815534818793145011, 24);
    Segwit.NatOf(ws[31]);
    DigitBack(ns, 32, 31, 4350791092646725862027644857815534818793145011, 135962221645210183188363901806735463087285781, 19);
    Segwit.NatOf(ws[30]);
    DigitBack(ns, 32, 30, 135962221645210183188363901806735463087285781, 4248819426412818224636371931460483221477680, 21);
    Segwit.NatOf(ws[29]);
    DigitBack(ns, 32, 29, 4248819426412818224636371931460483221477680, 132775607075400569519886622858140100671177, 16);
    Segwit.NatOf(ws[28]);
  }

  lemma WshWords8(ws: seq<Bech32.u5>)
    requires |ws| == 52 && FromDigits(Segwit.Nats(ws)[..36], 32) == 145988323864420262960047991501721031620826906363745490
    ensures FromDigits(Segwit.Nats(ws)[..32], 32) == 139225314964695227584884635450097114201380640376
    ensures ws[32] == 25 && ws[33] == 21 && ws[34] == 6 && ws[35] == 18
  {
    var ns := Segwit.Nats(ws);
    DigitBack(ns, 32, 36, 145988323864420262960047991501721031620826906363745490, 4562135120763133217501499734428782238150840823867046, 18);
    Segwit.NatOf(ws[35]);
    DigitBack(ns, 32, 35, 4562135120763133217501499734428782238150840823867046, 142566722523847913046921866700899444942213775745845, 6);
    Segwit.NatOf(ws[34]);
    DigitBack(ns, 32, 34, 142566722523847913046921866700899444942213775745845, 4455210078870247282716308334403107654444180492057, 21);
    Segwit.NatOf(ws[33]);
    DigitBack(ns, 32, 33, 4455210078870247282716308334403107654444180492057, 139225314964695227584884635450097114201380640376, 25);
    Segwit.NatOf(ws[32]);
  }

  lemma WshWords9(ws: seq<Bech32.u5>)
    requires |ws| == 52 && FromDigits(Segwit.Nats(ws)[..40], 32) == 153079852684458341653595282736908632452840194167270791422392
    ensures FromDigits(Segwit.Nats(ws)[..36], 32) == 145988323864420262960047991501721031620826906363745490
    ensures ws[36] == 15 && ws[37] == 8 && ws[38] == 13 && ws[39] == 24
  {
    var ns := Segwit.Nats(ws);
    DigitBack(ns, 32, 40, 153079852684458341653595282736908632452840194167270791422392, 4783745396389323176674852585528394764151256067727212231949, 24);
    Segwit.NatOf(ws[39]);
    DigitBack(ns, 32, 39, 4783745396389323176674852585528394764151256067727212231949, 149492043637166349271089143297762336379726752116475382248, 13);
    Segwit.NatOf(ws[38]);
    DigitBack(ns, 32, 38, 149492043637166349271089143297762336379726752116475382248, 4671626363661448414721535728055073011866461003639855695, 8);
    Segwit.NatOf(ws[37]);
    DigitBack(ns, 32, 37, 4671626363661448414721535728055073011866461003639855695, 145988323864420262960047991501721031620826906363745490, 15);
    Segwit.NatOf(ws[36]);
  }

  lemma WshWords10(ws: seq<Bech32.u5>)
    requires |ws| == 52 && FromDigits(Segwit.Nats(ws)[..44], 32) == 160515859608458590057760327191136706182869359439140137386526925609
    ensures FromDigits(Segwit.Nats(ws)[..40], 32) == 153079852684458341653595282736908632452840194167270791422392
    ensures ws[40] == 24 && ws[41] == 24 && ws[42] == 25 && ws[43] == 9
  {
    var ns := Segwit.Nats(ws);
    DigitBack(ns, 32, 44, 160515859608458590057760327191136706182869359439140137386526925609, 5016120612764330939305010224723022068214667482473129293328966425, 9);
    Segwit.NatOf(ws[43]);
    DigitBack(ns, 32, 43, 5016120612764330939305010224723022068214667482473129293328966425, 156753769148885341853281569522594439631708358827285290416530200, 25);
    Segwit.NatOf(ws[42]);
    DigitBack(ns, 32, 42, 156753769148885341853281569522594439631708358827285290416530200, 4898555285902666932915049047581076238490886213352665325516568, 24);
    Segwit.NatOf(ws[41]);
    DigitBack(ns, 32, 41, 4898555285902666932915049047581076238490886213352665325516568, 153079852684458341653595282736908632452840194167270791422392, 24);
    Segwit.NatOf(ws[40]);
  }

  lemma WshWords11(ws: seq<Bech32.u5>)
    requires |ws| == 52 && FromDigits(Segwit.Nats(ws)[..48], 32) == 168313078004799074528406092844773362822408421443255808700214857547777168
    ensures FromDigits(Segwit.Nats(ws)[..44], 32) == 160515859608458590057760327191136706182869359439140137386526925609
    ensures ws[44] == 12 && ws[45] == 1 && ws[46] == 4 && ws[47] == 16
  {
    var ns := Segwit.Nats(ws);
    DigitBack(ns, 32, 48, 168313078004799074528406092844773362822408421443255808700214857547777168, 5259783687649971079012690401399167588200263170101744021881714298368036, 16);
    Segwit.NatOf(ws[47]);
    DigitBack(ns, 32, 47, 5259783687649971079012690401399167588200263170101744021881714298368036, 164368240239061596219146575043723987131258224065679500683803571824001, 4);
    Segwit.NatOf(ws[46]);
    DigitBack(ns, 32, 46, 164368240239061596219146575043723987131258224065679500683803571824001, 5136507507470674881848330470116374597851819502052484396368861619500, 1);
    Segwit.NatOf(ws[45]);
    DigitBack(ns, 32, 45, 5136507507470674881848330470116374597851819502052484396368861619500, 160515859608458590057760327191136706182869359439140137386526925609, 12);
    Segwit.NatOf(ws[44]);
  }

  lemma WshWords12(ws: seq<Bech32.u5>)
    requires |ws| == 52 && FromDigits(Segwit.Nats(ws)[..52], 32) == 176489054081960194372697947210801073694869732923283402863636494468017991919136
    ensures FromDigits(Segwit.Nats(ws)[..48], 32) == 168313078004799074528406092844773362822408421443255808700214857547777168
    ensures ws[48] == 6 && ws[49] == 9 && ws[50] == 17 && ws[51] == 0
  {
    var ns := Segwit.Nats(ws);
    DigitBack(ns, 32, 52, 176489054081960194372697947210801073694869732923283402863636494468017991919136, 5515282940061256074146810850337533552964679153852606339488640452125562247473, 0);
    Segwit.NatOf(ws[51]);
    DigitBack(ns, 32, 51, 5515282940061256074146810850337533552964679153852606339488640452125562247473, 172352591876914252317087839073047923530146223557893948109020014128923820233, 17);
    Segwit.NatOf(ws[50]);
    DigitBack(ns, 32, 50, 172352591876914252317087839073047923530146223557893948109020014128923820233, 5386018496153570384908994971032747610317069486184185878406875441528869382, 9);
    Segwit.NatOf(ws[49]);
    DigitBack(ns, 32, 49, 5386018496153570384908994971032747610317069486184185878406875441528869382, 168313078004799074528406092844773362822408421443255808700214857547777168, 6);
    Segwit.NatOf(ws[48]);
  }

  /** The program's five-bit words, read off its value a few at a time from the end. */
  lemma WshWordsAt12(p: seq<byte>)
    requires WshProgram(p)
    ensures |Segwit.ToWords(p)| == 52 && FromDigits(Segwit.Nats(Segwit.ToWords(p))[..48], 32) == 168313078004799074528406092844773362822408421443255808700214857547777168
    ensures Segwit.ToWords(p)[48] == 6 && Segwit.ToWords(p)[49] == 9 &&
            Segwit.ToWords(p)[50] == 17 && Segwit.ToWords(p)[51] == 0
  {
    WshValue(p);
    WordsValue(p);
    assert Pow(2, 4) == 16;
    ValueAll(Segwit.Nats(Segwit.ToWords(p)), 32);
    WshWords12(Segwit.ToWords(p));
  }

  lemma WshWordsAt11(p: seq<byte>)
    requires WshProgram(p)
    ensures |Segwit.ToWords(p)| == 52 && FromDigits(Segwit.Nats(Segwit.ToWords(p))[..44], 32) == 160515859608458590057760327191136706182869359439140137386526925609
    ensures Segwit.ToWords(p)[44] == 12 && Segwit.ToWords(p)[45] == 1 &&
            Segwit.ToWords(p)[46] == 4 && Segwit.ToWords(p)[47] == 16
  {
    WshWordsAt12(p);
    WshWords11(Segwit.ToWords(p));
  }

  lemma WshWordsAt10(p: seq<byte>)
    requires WshProgram(p)
    ensures |Segwit.ToWords(p)| == 52 && FromDigits(Segwit.Nats(Segwit.ToWords(p))[..40], 32) == 153079852684458341653595282736908632452840194167270791422392
    ensures Segwit.ToWords(p)[40] == 24 && Segwit.ToWords(p)[41] == 24 &&
            Segwit.ToWords(p)[42] == 25 && Segwit.ToWords(p)[43] == 9
  {
    WshWordsAt11(p);
    WshWords10(Segwit.ToWords(p));
  }

  lemma WshWordsAt9(p: seq<byte>)
    requires WshProgram(p)
    ensures |Segwit.ToWords(p)| == 52 && FromDigits(Segwit.Nats(Segwit.ToWords(p))[..36], 32) == 145988323864420262960047991501721031620826906363745490
    ensures Segwit.ToWords(p)[36] == 15 && Segwit.ToWords(p)[37] == 8 &&
            Segwit.ToWords(p)[38] == 13 && Segwit.ToWords(p)[39] == 24
  {
    WshWordsAt10(p);
    WshWords9(Segwit.ToWords(p));
  }

  lemma WshWordsAt8(p: seq<byte>)
    requires WshProgram(p)
    ensures |Segwit.ToWords(p)| == 52 && FromDigits(Segwit.Nats(Segwit.ToWords(p))[..32], 32) == 139225314964695227584884635450097114201380640376
    ensures Segwit.ToWords(p)[32] == 25 && Segwit.ToWords(p)[33] == 21 &&
            Segwit.ToWords(p)[34] == 6 && Segwit.ToWords(p)[35] == 18
  {
    WshWordsAt9(p);
    WshWords8(Segwit.ToWords(p));
  }

  lemma WshWordsAt7(p: seq<byte>)
    requires WshProgram(p)
    ensures |Segwit.ToWords(p)| == 52 && FromDigits(Segwit.Nats(Segwit.ToWords(p))[..28], 32) == 132775607075400569519886622858140100671177
    ensures Segwit.ToWords(p)[28] == 16 && Segwit.ToWords(p)[29] == 21 &&
            Segwit.ToWords(p)[30] == 19 && Segwit.ToWords(p)[31] == 24
  {
    WshWordsAt8(p);
    WshWords7(Segwit.ToWords(p));
  }

  lemma WshWordsAt6(p: seq<byte>)
    requires WshProgram(p)
    ensures |Segwit.ToWords(p)| == 52 && FromDigits(Segwit.Nats(Segwit.ToWords(p))[..24], 32) == 126624686313057488937269804819240666
    ensures Segwit.ToWords(p)[24] == 2 && Segwit.ToWords(p)[25] == 13 &&
            Segwit.ToWords(p)[26] == 22 && Segwit.ToWords(p)[27] == 9
  {
    WshWordsAt7(p);
    WshWords6(Segwit.ToWords(p));
  }

  lemma WshWordsAt5(p: seq<byte>)
    requires WshProgram(p)
    ensures |Segwit.ToWords(p)| == 52 && FromDigits(Segwit.Nats(Segwit.ToWords(p))[..20], 32) == 120758711159760941445607952899
    ensures Segwit.ToWords(p)[20] == 6 && Segwit.ToWords(p)[21] == 21 &&
            Segwit.ToWords(p)[22] == 22 && Segwit.ToWords(p)[23] == 26
  {
    WshWordsAt6(p);
    WshWords5(Segwit.ToWords(p));
  }

  lemma WshWordsAt4(p: seq<byte>)
    requires WshProgram(p)
    ensures |Segwit.ToWords(p)| == 52 && FromDigits(Segwit.Nats(Segwit.ToWords(p))[..16], 32) == 115164481315384808965309
    ensures Segwit.ToWords(p)[16] == 3 && Segwit.ToWords(p)[17] == 4 &&
            Segwit.ToWords(p)[18] == 16 && Segwit.ToWords(p)[19] == 3
  {
    WshWordsAt5(p);
    WshWords4(Segwit.ToWords(p));
  }

  lemma WshWordsAt3(p: seq<byte>)
    requires WshProgram(p)
    ensures |Segwit.ToWords(p)| == 52 && FromDigits(Segwit.Nats(Segwit.ToWords(p))[..12], 32) == 109829407992729958
    ensures Segwit.ToWords(p)[12] == 16 && Segwit.ToWords(p)[13] == 1 &&
            Segwit.ToWords(p)[14] == 5 && Segwit.ToWords(p)[15] == 29
  {
    WshWordsAt4(p);
    WshWords3(Segwit.ToWords(p));
  }

  lemma WshWordsAt2(p: seq<byte>)
    requires WshProgram(p)
    ensures |Segwit.ToWords(p)| == 52 && FromDigits(Segwit.Nats(Segwit.ToWords(p))[..8], 32) == 104741485588
    ensures Segwit.ToWords(p)[8] == 24 && Segwit.ToWords(p)[9] == 20 &&
            Segwit.ToWords(p)[10] == 11 && Segwit.ToWords(p)[11] == 6
  {
    WshWordsAt3(p);
    WshWords2(Segwit.ToWords(p));
  }

  lemma WshWordsAt1(p: seq<byte>)
    requires WshProgram(p)
    ensures |Segwit.ToWords(p)| == 52 && FromDigits(Segwit.Nats(Segwit.ToWords(p))[..4], 32) == 99889
    ensures Segwit.ToWords(p)[4] == 8 && Segwit.ToWords(p)[5] == 15 && Segwit.ToWords(p)[6] == 0 &&
            Segwit.ToWords(p)[7] == 20
  {
    WshWordsAt2(p);
    WshWords1(Segwit.ToWords(p));
  }

  lemma WshWordsAt0(p: seq<byte>)
    requires WshProgram(p)
    ensures |Segwit.ToWords(p)| == 52 && FromDigits(Segwit.Nats(Segwit.ToWords(p))[..0], 32) == 0
    ensures Segwit.ToWords(p)[0] == 3 && Segwit.ToWords(p)[1] == 1 && Segwit.ToWords(p)[2] == 17 &&
            Segwit.ToWords(p)[3] == 17
  {
    WshWordsAt1(p);
    WshWords0(Segwit.ToWords(p));
  }

  /** The witness program holding the 32-byte script hash 000000c4a5cad462 21b2a187905e5266 362b99d5e91c6ce2 4d165dab93e86433, three leading zero bytes. */
  predicate WshZerosProgram(p: seq<byte>) {
    |p| == 32 && p[0] == 0x00 && p[1] == 0x00 && p[2] == 0x00 && p[3] == 0xc4 && p[4] == 0xa5 &&
    p[5] == 0xca && p[6] == 0xd4 && p[7] == 0x62 && p[8] == 0x21 && p[9] == 0xb2 &&
    p[10] == 0xa1 && p[11] == 0x87 && p[12] == 0x90 && p[13] == 0x5e && p[14] == 0x52 &&
    p[15] == 0x66 && p[16] == 0x36 && p[17] == 0x2b && p[18] == 0x99 && p[19] == 0xd5 &&
    p[20] == 0xe9 && p[21] == 0x1c && p[22] == 0x6c && p[23] == 0xe2 && p[24] == 0x4d &&
    p[25] == 0x16 && p[26] == 0x5d && p[27] == 0xab && p[28] == 0x93 && p[29] == 0xe8 &&
    p[30] == 0x64 && p[31] == 0x33
  }

  lemma WshZerosValue0(p: seq<byte>)
    requires WshZerosProgram(p) && FromDigits(p[..0], 256) == 0
    ensures FromDigits(p[..8], 256) == 844595123298
  {
    ValueNext(p, 256, 0, 0, 0, 0);
    ValueNext(p, 256, 1, 0, 0, 0);
    ValueNext(p, 256, 2, 0, 0, 0);
    ValueNext(p, 256, 3, 0, 196, 196);
    ValueNext(p, 256, 4, 196, 165, 50341);
    ValueNext(p, 256, 5, 50341, 202, 12887498);
    ValueNext(p, 256, 6, 12887498, 212, 3299199700);
    ValueNext(p, 256, 7, 3299199700, 98, 844595123298);
  }

  lemma WshZerosValue1(p: seq<byte>)
    requires WshZerosProgram(p) && FromDigits(p[..8], 256) == 844595123298
    ensures FromDigits(p[..16], 256) == 15580030085383797728108536025702
  {
    ValueNext(p, 256, 8, 844595123298, 33, 216216351564321);
    ValueNext(p, 256, 9, 216216351564321, 178, 55351386000466354);
    ValueNext(p, 256, 10, 55351386000466354, 161, 14169954816119386785);
    ValueNext(p, 256, 11, 14169954816119386785, 135, 3627508432926563017095);
    ValueNext(p, 256, 12, 3627508432926563017095, 144, 928642158829200132376464);
    ValueNext(p, 256, 13, 928642158829200132376464, 94, 237732392660275233888374878);
    ValueNext(p, 256, 14, 237732392660275233888374878, 82, 60859492521030459875423968850);
    ValueNext(p, 256, 15, 60859492521030459875423968850, 102, 15580030085383797728108536025702);
  }

  lemma WshZerosValue2(p: seq<byte>)
    requires WshZerosProgram(p) && FromDigits(p[..16], 256) == 15580030085383797728108536025702
    ensures FromDigits(p[..24], 256) == 287400827645770090195629694091025787907323136339170
  {
    ValueNext(p, 256, 16, 15580030085383797728108536025702, 54, 3988487701858252218395785222579766);
    ValueNext(p, 256, 17, 3988487701858252218395785222579766, 43, 1021052851675712567909321016980420139);
    ValueNext(p, 256, 18, 1021052851675712567909321016980420139, 153, 261389530028982417384786180346987555737);
    ValueNext(p, 256, 19, 261389530028982417384786180346987555737, 213, 66915719687419498850505262168828814268885);
    ValueNext(p, 256, 20, 66915719687419498850505262168828814268885, 233, 17130424239979391705729347115220176452834793);
    ValueNext(p, 256, 21, 17130424239979391705729347115220176452834793, 28, 4385388605434724276666712861496365171925707036);
    ValueNext(p, 256, 22, 4385388605434724276666712861496365171925707036, 108, 1122659482991289414826678492543069484012981001324);
    ValueNext(p, 256, 23, 1122659482991289414826678492543069484012981001324, 226, 287400827645770090195629694091025787907323136339170);
  }

  lemma WshZerosValue3(p: seq<byte>)
    requires WshZerosProgram(p) && FromDigits(p[..24], 256) == 287400827645770090195629694091025787907323136339170
    ensures FromDigits(p[..32], 256) == 5301609514153829676532701113039207881149441137467675059593238307955763
  {
    ValueNext(p, 256, 24, 287400827645770090195629694091025787907323136339170, 77, 73574611877317143090081201687302601704274722902827597);
    ValueNext(p, 256, 25, 73574611877317143090081201687302601704274722902827597, 22, 18835100640593188631060787631949466036294329063123864854);
    ValueNext(p, 256, 26, 18835100640593188631060787631949466036294329063123864854, 93, 4821785763991856289551561633779063305291348240159709402717);
    ValueNext(p, 256, 27, 4821785763991856289551561633779063305291348240159709402717, 171, 1234377155581915210125199778247440206154585149480885607095723);
    ValueNext(p, 256, 28, 1234377155581915210125199778247440206154585149480885607095723, 147, 316000551828970293792051143231344692775573798267106715416505235);
    ValueNext(p, 256, 29, 316000551828970293792051143231344692775573798267106715416505235, 232, 80896141268216395210765092667224241350546892356379319146625340392);
    ValueNext(p, 256, 30, 80896141268216395210765092667224241350546892356379319146625340392, 100, 20709412164663397173955863722809405785740004443233105701536087140452);
    ValueNext(p, 256, 31, 20709412164663397173955863722809405785740004443233105701536087140452, 51, 5301609514153829676532701113039207881149441137467675059593238307955763);
  }

  lemma WshZerosValue(p: seq<byte>)
    requires WshZerosProgram(p)
    ensures FromDigits(p, 256) == 5301609514153829676532701113039207881149441137467675059593238307955763
  {
    ValueStart(p, 256);
    WshZerosValue0(p);
    WshZerosValue1(p);
    WshZerosValue2(p);
    WshZerosValue3(p);
    ValueAll(p, 256);
  }

  lemma WshZerosWords0(ws: seq<Bech32.u5>)
    requires |ws| == 52 && FromDigits(Segwit.Nats(ws)[..4], 32) == 0
    ensures FromDigits(Segwit.Nats(ws)[..0], 32) == 0
    ensures ws[0] == 0 && ws[1] == 0 && ws[2] == 0 && ws[3] == 0
  {
    var ns := Segwit.Nats(ws);
    DigitBack(ns, 32, 4, 0, 0, 0);
    Segwit.NatOf(ws[3]);
    DigitBack(ns, 32, 3, 0, 0, 0);
    Segwit.NatOf(ws[2]);
    DigitBack(ns, 32, 2, 0, 0, 0);
    Segwit.NatOf(ws[1]);
    DigitBack(ns, 32, 1, 0, 0, 0);
    Segwit.NatOf(ws[0]);
  }

  lemma WshZerosWords1(ws: seq<Bech32.u5>)
    requires |ws| == 52 && FromDigits(Segwit.Nats(ws)[..8], 32) == 50341
    ensures FromDigits(Segwit.Nats(ws)[..4], 32) == 0
    ensures ws[4] == 1 && ws[5] == 17 && ws[6] == 5 && ws[7] == 5
  {
    var ns := Segwit.Nats(ws);
    DigitBack(ns, 32, 8, 50341, 1573, 5);
    Segwit.NatOf(ws[7]);
    DigitBack(ns, 32, 7, 1573, 49, 5);
    Segwit.NatOf(ws[6]);
    DigitBack(ns, 32, 6, 49, 1, 17);
    Segwit.NatOf(ws[5]);
    DigitBack(ns, 32, 5, 1, 0, 1);
    Segwit.NatOf(ws[4]);
  }

  lemma WshZerosWords2(ws: seq<Bech32.u5>)
    requires |ws| == 52 && FromDigits(Segwit.Nats(ws)[..12], 32) == 52787195206
    ensures FromDigits(Segwit.Nats(ws)[..8], 32) == 50341
    ensures ws[8] == 25 && ws[9] == 11 && ws[10] == 10 && ws[11] == 6
  {
    var ns := Segwit.Nats(ws);
    DigitBack(ns, 32, 12, 52787195206, 1649599850, 6);
    Segwit.NatOf(ws[11]);
    DigitBack(ns, 32, 11, 1649599850, 51549995, 10);
    Segwit.NatOf(ws[10]);
    DigitBack(ns, 32, 10, 51549995, 1610937, 11);
    Segwit.NatOf(ws[9]);
    DigitBack(ns, 32, 9, 1610937, 50341, 25);
    Segwit.NatOf(ws[8]);
  }

  lemma WshZerosWords3(ws: seq<Bech32.u5>)
    requires |ws| == 52 && FromDigits(Segwit.Nats(ws)[..16], 32) == 55351386000466354
    ensures FromDigits(Segwit.Nats(ws)[..12], 32) == 52787195206
    ensures ws[12] == 4 && ws[13] == 8 && ws[14] == 13 && ws[15] == 18
  {
    var ns := Segwit.Nats(ws);
    DigitBack(ns, 32, 16, 55351386000466354, 1729730812514573, 18);
    Segwit.NatOf(ws[15]);
    DigitBack(ns, 32, 15, 1729730812514573, 54054087891080, 13);
    Segwit.NatOf(ws[14]);
    DigitBack(ns, 32, 14, 54054087891080, 1689190246596, 8);
    Segwit.NatOf(ws[13]);
    DigitBack(ns, 32, 13, 1689190246596, 52787195206, 4);
    Segwit.NatOf(ws[12]);
  }

  lemma WshZerosWords4(ws: seq<Bech32.u5>)
    requires |ws| == 52 && FromDigits(Segwit.Nats(ws)[..20], 32) == 58040134926825008273529
    ensures FromDigits(Segwit.Nats(ws)[..16], 32) == 55351386000466354
    ensures ws[16] == 20 && ws[17] == 6 && ws[18] == 3 && ws[19] == 25
  {
    var ns := Segwit.Nats(ws);
    DigitBack(ns, 32, 20, 58040134926825008273529, 1813754216463281508547, 25);
    Segwit.NatOf(ws[19]);
    DigitBack(ns, 32, 19, 1813754216463281508547, 56679819264477547142, 3);
    Segwit.NatOf(ws[18]);
    DigitBack(ns, 32, 18, 56679819264477547142, 1771244352014923348, 6);
    Segwit.NatOf(ws[17]);
    DigitBack(ns, 32, 17, 1771244352014923348, 55351386000466354, 20);
    Segwit.NatOf(ws[16]);
  }

  lemma WshZerosWords5(ws: seq<Bech32.u5>)
    requires |ws| == 52 && FromDigits(Segwit.Nats(ws)[..24], 32) == 60859492521030459875423968850
    ensures FromDigits(Segwit.Nats(ws)[..20], 32) == 58040134926825008273529
    ensures ws[20] == 0 && ws[21] == 23 && ws[22] == 18 && ws[23] == 18
  {
    var ns := Segwit.Nats(ws);
    DigitBack(ns, 32, 24, 60859492521030459875423968850, 1901859141282201871106999026, 18);
    Segwit.NatOf(ws[23]);
    DigitBack(ns, 32, 23, 1901859141282201871106999026, 59433098165068808472093719, 18);
    Segwit.NatOf(ws[22]);
    DigitBack(ns, 32, 22, 59433098165068808472093719, 1857284317658400264752928, 23);
    Segwit.NatOf(ws[21]);
    DigitBack(ns, 32, 21, 1857284317658400264752928, 58040134926825008273529, 0);
    Segwit.NatOf(ws[20]);
  }

  lemma WshZerosWords6(ws: seq<Bech32.u5>)
    requires |ws| == 52 && FromDigits(Segwit.Nats(ws)[..28], 32) == 63815803229732035494332563561276258
    ensures FromDigits(Segwit.Nats(ws)[..24], 32) == 60859492521030459875423968850
    ensures ws[24] == 12 && ws[25] == 24 && ws[26] == 27 && ws[27] == 2
  {
    var ns := Segwit.Nats(ws);
    DigitBack(ns, 32, 28, 63815803229732035494332563561276258, 1994243850929126109197892611289883, 2);
    Segwit.NatOf(ws[27]);
    DigitBack(ns, 32, 27, 1994243850929126109197892611289883, 62320120341535190912434144102808, 27);
    Segwit.NatOf(ws[26]);
    DigitBack(ns, 32, 26, 62320120341535190912434144102808, 1947503760672974716013567003212, 24);
    Segwit.NatOf(ws[25]);
    DigitBack(ns, 32, 25, 1947503760672974716013567003212, 60859492521030459875423968850, 12);
    Segwit.NatOf(ws[24]);
  }

  lemma WshZerosWords7(ws: seq<Bech32.u5>)
    requires |ws| == 52 && FromDigits(Segwit.Nats(ws)[..32], 32) == 66915719687419498850505262168828814268885
    ensures FromDigits(Segwit.Nats(ws)[..28], 32) == 63815803229732035494332563561276258
    ensures ws[28] == 23 && ws[29] == 6 && ws[30] == 14 && ws[31] == 21
  {
    var ns := Segwit.Nats(ws);
    DigitBack(ns, 32, 32, 66915719687419498850505262168828814268885, 2091116240231859339078289442775900445902, 21);
    Segwit.NatOf(ws[31]);
    DigitBack(ns, 32, 31, 2091116240231859339078289442775900445902, 65347382507245604346196545086746888934, 14);
    Segwit.NatOf(ws[30]);
    DigitBack(ns, 32, 30, 65347382507245604346196545086746888934, 2042105703351425135818642033960840279, 6);
    Segwit.NatOf(ws[29]);
    DigitBack(ns, 32, 29, 2042105703351425135818642033960840279, 63815803229732035494332563561276258, 23);
    Segwit.NatOf(ws[28]);
  }

  lemma WshZerosWords8(ws: seq<Bech32.u5>)
    requires |ws| == 52 && FromDigits(Segwit.Nats(ws)[..36], 32) == 70166217686955588426667405783941842750811312582
    ensures FromDigits(Segwit.Nats(ws)[..32], 32) == 66915719687419498850505262168828814268885
    ensures ws[32] == 29 && ws[33] == 4 && ws[34] == 14 && ws[35] == 6
  {
    var ns := Segwit.Nats(ws);
    DigitBack(ns, 32, 36, 70166217686955588426667405783941842750811312582, 2192694302717362138333356430748182585962853518, 6);
    Segwit.NatOf(ws[35]);
    DigitBack(ns, 32, 35, 2192694302717362138333356430748182585962853518, 68521696959917566822917388460880705811339172, 14);
    Segwit.NatOf(ws[34]);
    DigitBack(ns, 32, 34, 68521696959917566822917388460880705811339172, 2141303029997423963216168389402522056604349, 4);
    Segwit.NatOf(ws[33]);
    DigitBack(ns, 32, 33, 2141303029997423963216168389402522056604349, 66915719687419498850505262168828814268885, 29);
    Segwit.NatOf(ws[32]);
  }

  lemma WshZerosWords9(ws: seq<Bech32.u5>)
    requires |ws| == 52 && FromDigits(Segwit.Nats(ws)[..40], 32) == 73574611877317143090081201687302601704274722902827597
    ensures FromDigits(Segwit.Nats(ws)[..36], 32) == 70166217686955588426667405783941842750811312582
    ensures ws[36] == 25 && ws[37] == 24 && ws[38] == 18 && ws[39] == 13
  {
    var ns := Segwit.Nats(ws);
    DigitBack(ns, 32, 40, 73574611877317143090081201687302601704274722902827597, 2299206621166160721565037552728206303258585090713362, 13);
    Segwit.NatOf(ws[39]);
    DigitBack(ns, 32, 39, 2299206621166160721565037552728206303258585090713362, 71850206911442522548907423522756446976830784084792, 18);
    Segwit.NatOf(ws[38]);
    DigitBack(ns, 32, 38, 71850206911442522548907423522756446976830784084792, 2245318965982578829653356985086138968025962002649, 24);
    Segwit.NatOf(ws[37]);
    DigitBack(ns, 32, 37, 2245318965982578829653356985086138968025962002649, 70166217686955588426667405783941842750811312582, 25);
    Segwit.NatOf(ws[36]);
  }

  lemma WshZerosWords10(ws: seq<Bech32.u5>)
    requires |ws| == 52 && FromDigits(Segwit.Nats(ws)[..44], 32) == 77148572223869700632824986140465012884661571842555350443482
    ensures FromDigits(Segwit.Nats(ws)[..40], 32) == 73574611877317143090081201687302601704274722902827597
    ensures ws[40] == 2 && ws[41] == 25 && ws[42] == 14 && ws[43] == 26
  {
    var ns := Segwit.Nats(ws);
    DigitBack(ns, 32, 44, 77148572223869700632824986140465012884661571842555350443482, 2410892881995928144775780816889531652645674120079854701358, 26);
    Segwit.NatOf(ws[43]);
    DigitBack(ns, 32, 43, 2410892881995928144775780816889531652645674120079854701358, 75340402562372754524243150527797864145177316252495459417, 14);
    Segwit.NatOf(ws[42]);
    DigitBack(ns, 32, 42, 75340402562372754524243150527797864145177316252495459417, 2354387580074148578882598453993683254536791132890483106, 25);
    Segwit.NatOf(ws[41]);
    DigitBack(ns, 32, 41, 2354387580074148578882598453993683254536791132890483106, 73574611877317143090081201687302601704274722902827597, 2);
    Segwit.NatOf(ws[40]);
  }

  lemma WshZerosWords11(ws: seq<Bech32.u5>)
    requires |ws| == 52 && FromDigits(Segwit.Nats(ws)[..48], 32) == 80896141268216395210765092667224241350546892356379319146625340392
    ensures FromDigits(Segwit.Nats(ws)[..44], 32) == 77148572223869700632824986140465012884661571842555350443482
    ensures ws[44] == 23 && ws[45] == 4 && ws[46] == 31 && ws[47] == 8
  {
    var ns := Segwit.Nats(ws);
    DigitBack(ns, 32, 48, 80896141268216395210765092667224241350546892356379319146625340392, 2528004414631762350336409145850757542204590386136853723332041887, 8);
    Segwit.NatOf(ws[47]);
    DigitBack(ns, 32, 47, 2528004414631762350336409145850757542204590386136853723332041887, 79000137957242573448012785807836173193893449566776678854126308, 31);
    Segwit.NatOf(ws[46]);
    DigitBack(ns, 32, 46, 79000137957242573448012785807836173193893449566776678854126308, 2468754311163830420250399556494880412309170298961771214191447, 4);
    Segwit.NatOf(ws[45]);
    DigitBack(ns, 32, 45, 2468754311163830420250399556494880412309170298961771214191447, 77148572223869700632824986140465012884661571842555350443482, 23);
    Segwit.NatOf(ws[44]);
  }

  lemma WshZerosWords12(ws: seq<Bech32.u5>)
    requires |ws| == 52 && FromDigits(Segwit.Nats(ws)[..52], 32) == 84825752226461274824523217808627326098391058199482800953491812927292208
    ensures FromDigits(Segwit.Nats(ws)[..48], 32) == 80896141268216395210765092667224241350546892356379319146625340392
    ensures ws[48] == 12 && ws[49] == 16 && ws[50] == 25 && ws[51] == 16
  {
    var ns := Segwit.Nats(ws);
    DigitBack(ns, 32, 52, 84825752226461274824523217808627326098391058199482800953491812927292208, 2650804757076914838266350556519603940574720568733837529796619153977881, 16);
    Segwit.NatOf(ws[51]);
    DigitBack(ns, 32, 51, 2650804757076914838266350556519603940574720568733837529796619153977881, 82837648658653588695823454891237623142960017772932422806144348561808, 25);
    Segwit.NatOf(ws[50]);
    DigitBack(ns, 32, 50, 82837648658653588695823454891237623142960017772932422806144348561808, 2588676520582924646744482965351175723217500555404138212692010892556, 16);
    Segwit.NatOf(ws[49]);
    DigitBack(ns, 32, 49, 2588676520582924646744482965351175723217500555404138212692010892556, 80896141268216395210765092667224241350546892356379319146625340392, 12);
    Segwit.NatOf(ws[48]);
  }

  /** The program's five-bit words, read off its value a few at a time from the end. */
  lemma WshZerosWordsAt12(p: seq<byte>)
    requires WshZerosProgram(p)
    ensures |Segwit.ToWords(p)| == 52 && FromDigits(Segwit.Nats(Segwit.ToWords(p))[..48], 32) == 80896141268216395210765092667224241350546892356379319146625340392
    ensures Segwit.ToWords(p)[48] == 12 && Segwit.ToWords(p)[49] == 16 &&
            Segwit.ToWords(p)[50] == 25 && Segwit.ToWords(p)[51] == 16
  {
    WshZerosValue(p);
    WordsValue(p);
    assert Pow(2, 4) == 16;
    ValueAll(Segwit.Nats(Segwit.ToWords(p)), 32);
    WshZerosWords12(Segwit.ToWords(p));
  }

  lemma WshZerosWordsAt11(p: seq<byte>)
    requires WshZerosProgram(p)
    ensures |Segwit.ToWords(p)| == 52 && FromDigits(Segwit.Nats(Segwit.ToWords(p))[..44], 32) == 77148572223869700632824986140465012884661571842555350443482
    ensures Segwit.ToWords(p)[44] == 23 && Segwit.ToWords(p)[45] == 4 &&
            Segwit.ToWords(p)[46] == 31 && Segwit.ToWords(p)[47] == 8
  {
    WshZerosWordsAt12(p);
    WshZerosWords11(Segwit.ToWords(p));
  }

  lemma WshZerosWordsAt10(p: seq<byte>)
    requires WshZerosProgram(p)
    ensures |Segwit.ToWords(p)| == 52 && FromDigits(Segwit.Nats(Segwit.ToWords(p))[..40], 32) == 73574611877317143090081201687302601704274722902827597
    ensures Segwit.ToWords(p)[40] == 2 && Segwit.ToWords(p)[41] == 25 &&
            Segwit.ToWords(p)[42] == 14 && Segwit.ToWords(p)[43] == 26
  {
    WshZerosWordsAt11(p);
    WshZerosWords10(Segwit.ToWords(p));
  }

  lemma WshZerosWordsAt9(p: seq<byte>)
    requires WshZerosProgram(p)
    ensures |Segwit.ToWords(p)| == 52 && FromDigits(Segwit.Nats(Segwit.ToWords(p))[..36], 32) == 70166217686955588426667405783941842750811312582
    ensures Segwit.ToWords(p)[36] == 25 && Segwit.ToWords(p)[37] == 24 &&
            Segwit.ToWords(p)[38] == 18 && Segwit.ToWords(p)[39] == 13
  {
    WshZerosWordsAt10(p);
    WshZerosWords9(Segwit.ToWords(p));
  }

  lemma WshZerosWordsAt8(p: seq<byte>)
    requires WshZerosProgram(p)
    ensures |Segwit.ToWords(p)| == 52 && FromDigits(Segwit.Nats(Segwit.ToWords(p))[..32], 32) == 66915719687419498850505262168828814268885
    ensures Segwit.ToWords(p)[32] == 29 && Segwit.ToWords(p)[33] == 4 &&
            Segwit.ToWords(p)[34] == 14 && Segwit.ToWords(p)[35] == 6
  {
    WshZerosWordsAt9(p);
    WshZerosWords8(Segwit.ToWords(p));
  }

  lemma WshZerosWordsAt7(p: seq<byte>)
    requires WshZerosProgram(p)
    ensures |Segwit.ToWords(p)| == 52 && FromDigits(Segwit.Nats(Segwit.ToWords(p))[..28], 32) == 63815803229732035494332563561276258
    ensures Segwit.ToWords(p)[28] == 23 && Segwit.ToWords(p)[29] == 6 &&
            Segwit.ToWords(p)[30] == 14 && Segwit.ToWords(p)[31] == 21
  {
    WshZerosWordsAt8(p);
    WshZerosWords7(Segwit.ToWords(p));
  }

  lemma WshZerosWordsAt6(p: seq<byte>)
    requires WshZerosProgram(p)
    ensures |Segwit.ToWords(p)| == 52 && FromDigits(Segwit.Nats(Segwit.ToWords(p))[..24], 32) == 60859492521030459875423968850
    ensures Segwit.ToWords(p)[24] == 12 && Segwit.ToWords(p)[25] == 24 &&
            Segwit.ToWords(p)[26] == 27 && Segwit.ToWords(p)[27] == 2
  {
    WshZerosWordsAt7(p);
    WshZerosWords6(Segwit.ToWords(p));
  }

  lemma WshZerosWordsAt5(p: seq<byte>)
    requires WshZerosProgram(p)
    ensures |Segwit.ToWords(p)| == 52 && FromDigits(Segwit.Nats(Segwit.ToWords(p))[..20], 32) == 58040134926825008273529
    ensures Segwit.ToWords(p)[20] == 0 && Segwit.ToWords(p)[21] == 23 &&
            Segwit.ToWords(p)[22] == 18 && Segwit.ToWords(p)[23] == 18
  {
    WshZerosWordsAt6(p);
    WshZerosWords5(Segwit.ToWords(p));
  }

  lemma WshZerosWordsAt4(p: seq<byte>)
    requires WshZerosProgram(p)
    ensures |Segwit.ToWords(p)| == 52 && FromDigits(Segwit.Nats(Segwit.ToWords(p))[..16], 32) == 55351386000466354
    ensures Segwit.ToWords(p)[16] == 20 && Segwit.ToWords(p)[17] == 6 &&
            Segwit.ToWords(p)[18] == 3 && Segwit.ToWords(p)[19] == 25
  {
    WshZerosWordsAt5(p);
    WshZerosWords4(Segwit.ToWords(p));
  }

  lemma WshZerosWordsAt3(p: seq<byte>)
    requires WshZerosProgram(p)
    ensures |Segwit.ToWords(p)| == 52 && FromDigits(Segwit.Nats(Segwit.ToWords(p))[..12], 32) == 52787195206
    ensures Segwit.ToWords(p)[12] == 4 && Segwit.ToWords(p)[13] == 8 &&
            Segwit.ToWords(p)[14] == 13 && Segwit.ToWords(p)[15] == 18
  {
    WshZerosWordsAt4(p);
    WshZerosWords3(Segwit.ToWords(p));
  }

  lemma WshZerosWordsAt2(p: seq<byte>)
    requires WshZerosProgram(p)
    ensures |Segwit.ToWords(p)| == 52 && FromDigits(Segwit.Nats(Segwit.ToWords(p))[..8], 32) == 50341
    ensures Segwit.ToWords(p)[8] == 25 && Segwit.ToWords(p)[9] == 11 &&
            Segwit.ToWords(p)[10] == 10 && Segwit.ToWords(p)[11] == 6
  {
    WshZerosWordsAt3(p);
    WshZerosWords2(Segwit.ToWords(p));
  }

  lemma WshZerosWordsAt1(p: seq<byte>)
    requires WshZerosProgram(p)
    ensures |Segwit.ToWords(p)| == 52 && FromDigits(Segwit.Nats(Segwit.ToWords(p))[..4], 32) == 0
    ensures Segwit.ToWords(p)[4] == 1 && Segwit.ToWords(p)[5] == 17 && Segwit.ToWords(p)[6] == 5 &&
            Segwit.ToWords(p)[7] == 5
  {
    WshZerosWordsAt2(p);
    WshZerosWords1(Segwit.ToWords(p));
  }

  lemma WshZerosWordsAt0(p: seq<byte>)
    requires WshZerosProgram(p)
    ensures |Segwit.ToWords(p)| == 52 && FromDigits(Segwit.Nats(Segwit.ToWords(p))[..0], 32) == 0
    ensures Segwit.ToWords(p)[0] == 0 && Segwit.ToWords(p)[1] == 0 && Segwit.ToWords(p)[2] == 0 &&
            Segwit.ToWords(p)[3] == 0
  {
    WshZerosWordsAt1(p);
    WshZerosWords0(Segwit.ToWords(p));
  }

  lemma MainnetP2wpkhResidue0(p: seq<byte>)
    requires WpkhProgram(p) && |Segwit.ToWords(p)| == 32 && Residue(1029332946, Segwit.ToWords(p), 0) == 1029332946
    ensures Residue(1029332946, Segwit.ToWords(p), 4) == 291543261
  {
    WpkhWordsAt0(p);
    var ws := Segwit.ToWords(p);
    ResidueNext(1029332946, ws, 0, 1029332946, 14, 82590903);
    ResidueNext(1029332946, ws, 1, 82590903, 20, 1003952281);
    ResidueNext(1029332946, ws, 2, 1003952281, 15, 142478345);
    ResidueNext(1029332946, ws, 3, 142478345, 7, 291543261);
  }

  lemma MainnetP2wpkhResidue1(p: seq<byte>)
    requires WpkhProgram(p) && |Segwit.ToWords(p)| == 32 && Residue(1029332946, Segwit.ToWords(p), 4) == 291543261
    ensures Residue(1029332946, Segwit.ToWords(p), 8) == 723241934
  {
    WpkhWordsAt1(p);
    var ws := Segwit.ToWords(p);
    ResidueNext(1029332946, ws, 4, 291543261, 13, 290531440);
    ResidueNext(1029332946, ws, 5, 290531440, 26, 392641991);
    ResidueNext(1029332946, ws, 6, 392641991, 0, 211768034);
    ResidueNext(1029332946, ws, 7, 211768034, 25, 723241934);
  }

  lemma MainnetP2wpkhResidue2(p: seq<byte>)
    requires WpkhProgram(p) && |Segwit.ToWords(p)| == 32 && Residue(1029332946, Segwit.ToWords(p), 8) == 723241934
    ensures Residue(1029332946, Segwit.ToWords(p), 12) == 972560554
  {
    WpkhWordsAt2(p);
    var ws := Segwit.ToWords(p);
    ResidueNext(1029332946, ws, 8, 723241934, 18, 749098281);
    ResidueNext(1029332946, ws, 9, 749098281, 6, 103763970);
    ResidueNext(1029332946, ws, 10, 103763970, 11, 416340372);
    ResidueNext(1029332946, ws, 11, 416340372, 13, 972560554);
  }

  lemma MainnetP2wpkhResidue3(p: seq<byte>)
    requires WpkhProgram(p) && |Segwit.ToWords(p)| == 32 && Residue(1029332946, Segwit.ToWords(p), 12) == 972560554
    ensures Residue(1029332946, Segwit.ToWords(p), 16) == 597819211
  {
    WpkhWordsAt3(p);
    var ws := Segwit.ToWords(p);
    ResidueNext(1029332946, ws, 12, 972560554, 8, 921984476);
    ResidueNext(1029332946, ws, 13, 921984476, 21, 350696228);
    ResidueNext(1029332946, ws, 14, 350696228, 4, 133486900);
    ResidueNext(1029332946, ws, 15, 133486900, 20, 597819211);
  }

  lemma MainnetP2wpkhResidue4(p: seq<byte>)
    requires WpkhProgram(p) && |Segwit.ToWords(p)| == 32 && Residue(1029332946, Segwit.ToWords(p), 16) == 597819211
    ensures Residue(1029332946, Segwit.ToWords(p), 20) == 242610223
  {
    WpkhWordsAt4(p);
    var ws := Segwit.ToWords(p);
    ResidueNext(1029332946, ws, 16, 597819211, 3, 625073250);
    ResidueNext(1029332946, ws, 17, 625073250, 17, 612327567);
    ResidueNext(1029332946, ws, 18, 612327567, 2, 61406524);
    ResidueNext(1029332946, ws, 19, 61406524, 29, 242610223);
  }

  lemma MainnetP2wpkhResidue5(p: seq<byte>)
    requires WpkhProgram(p) && |Segwit.ToWords(p)| == 32 && Residue(1029332946, Segwit.ToWords(p), 20) == 242610223
    ensures Residue(1029332946, Segwit.ToWords(p), 24) == 708342132
  {
    WpkhWordsAt5(p);
    var ws := Segwit.ToWords(p);
    ResidueNext(1029332946, ws, 20, 242610223, 3, 220579270);
    ResidueNext(1029332946, ws, 21, 220579270, 12, 474558299);
    ResidueNext(1029332946, ws, 22, 474558299, 29, 211177271);
    ResidueNext(1029332946, ws, 23, 211177271, 3, 708342132);
  }

  lemma MainnetP2wpkhResidue6(p: seq<byte>)
    requires WpkhProgram(p) && |Segwit.ToWords(p)| == 32 && Residue(1029332946, Segwit.ToWords(p), 24) == 708342132
    ensures Residue(1029332946, Segwit.ToWords(p), 28) == 86315525
  {
    WpkhWordsAt6(p);
    var ws := Segwit.ToWords(p);
    ResidueNext(1029332946, ws, 24, 708342132, 4, 147915391);
    ResidueNext(1029332946, ws, 25, 147915391, 15, 75585045);
    ResidueNext(1029332946, ws, 26, 75585045, 24, 913984725);
    ResidueNext(1029332946, ws, 27, 913984725, 20, 86315525);
  }

  lemma MainnetP2wpkhResidue7(p: seq<byte>)
    requires WpkhProgram(p) && |Segwit.ToWords(p)| == 32 && Residue(1029332946, Segwit.ToWords(p), 28) == 86315525
    ensures Residue(1029332946, Segwit.ToWords(p), 32) == 158975213
  {
    WpkhWordsAt7(p);
    var ws := Segwit.ToWords(p);
    ResidueNext(1029332946, ws, 28, 86315525, 6, 49467083);
    ResidueNext(1029332946, ws, 29, 49467083, 14, 624135900);
    ResidueNext(1029332946, ws, 30, 624135900, 30, 708130624);
    ResidueNext(1029332946, ws, 31, 708130624, 22, 158975213);
  }

  /** The residue over the program's words, after the human-readable part and the version. */
  lemma MainnetP2wpkhWordsResidue(p: seq<byte>)
    requires WpkhProgram(p)
    ensures Bech32.PolymodFrom(1029332946, Segwit.ToWords(p)) == 158975213
  {
    WpkhWordsAt0(p);
    var ws := Segwit.ToWords(p);
    MainnetP2wpkhResidue0(p);
    MainnetP2wpkhResidue1(p);
    MainnetP2wpkhResidue2(p);
    MainnetP2wpkhResidue3(p);
    MainnetP2wpkhResidue4(p);
    MainnetP2wpkhResidue5(p);
    MainnetP2wpkhResidue6(p);
    MainnetP2wpkhResidue7(p);
    ResidueAll(1029332946, ws);
  }

  /** The residue of the checksum input: expanded "bc", the version, the program's words, six zeros. */
  lemma MainnetP2wpkhResidue(p: seq<byte>)
    requires WpkhProgram(p)
    ensures Bech32.Polymod(Bech32.HrpExpand("bc") + ([0] + Segwit.ToWords(p)) + Bech32.ZeroWords(6)) == 410305908
  {
    var h, ws := Bech32.HrpExpand("bc"), Segwit.ToWords(p);
    HrpResidueBC();
    MainnetP2wpkhWordsResidue(p);
    Bech32.PolymodAppend(1, h + ([0] + ws), Bech32.ZeroWords(6));
    Bech32.PolymodAppend(1, h, [0] + ws);
    assert ([0] + ws)[1..] == ws;
    Bech32.Unfold1(36798531, [0] + ws);
    Bech32.Unfold6(158975213, Bech32.ZeroWords(6));
  }

  lemma MainnetP2wpkhChecksum(p: seq<byte>)
    requires WpkhProgram(p)
    ensures Bech32.CreateChecksum("bc", [0] + Segwit.ToWords(p)) == [12, 7, 9, 17, 11, 21]
  {
    MainnetP2wpkhResidue(p);
  }

  lemma MainnetP2wpkhChars0(ws: seq<Bech32.u5>)
    requires |ws| == 32 && ws[0] == 14 && ws[1] == 20 && ws[2] == 15 && ws[3] == 7
    ensures Bech32.ToChars(ws)[0] == 'w' && Bech32.ToChars(ws)[1] == '5' &&
            Bech32.ToChars(ws)[2] == '0' && Bech32.ToChars(ws)[3] == '8'
  {
    assert Bech32.Charset[14] == 'w'; assert Bech32.Charset[20] == '5';
    assert Bech32.Charset[15] == '0'; assert Bech32.Charset[7] == '8';
  }

  lemma MainnetP2wpkhChars1(ws: seq<Bech32.u5>)
    requires |ws| == 32 && ws[4] == 13 && ws[5] == 26 && ws[6] == 0 && ws[7] == 25
    ensures Bech32.ToChars(ws)[4] == 'd' && Bech32.ToChars(ws)[5] == '6' &&
            Bech32.ToChars(ws)[6] == 'q' && Bech32.ToChars(ws)[7] == 'e'
  {
    assert Bech32.Charset[13] == 'd'; assert Bech32.Charset[26] == '6';
    assert Bech32.Charset[0] == 'q'; assert Bech32.Charset[25] == 'e';
  }

  lemma MainnetP2wpkhChars2(ws: seq<Bech32.u5>)
    requires |ws| == 32 && ws[8] == 18 && ws[9] == 6 && ws[10] == 11 && ws[11] == 13
    ensures Bech32.ToChars(ws)[8] == 'j' && Bech32.ToChars(ws)[9] == 'x' &&
            Bech32.ToChars(ws)[10] == 't' && Bech32.ToChars(ws)[11] == 'd'
  {
    assert Bech32.Charset[18] == 'j'; assert Bech32.Charset[6] == 'x';
    assert Bech32.Charset[11] == 't'; assert Bech32.Charset[13] == 'd';
  }

  lemma MainnetP2wpkhChars3(ws: seq<Bech32.u5>)
    requires |ws| == 32 && ws[12] == 8 && ws[13] == 21 && ws[14] == 4 && ws[15] == 20
    ensures Bech32.ToChars(ws)[12] == 'g' && Bech32.ToChars(ws)[13] == '4' &&
            Bech32.ToChars(ws)[14] == 'y' && Bech32.ToChars(ws)[15] == '5'
  {
    assert Bech32.Charset[8] == 'g'; assert Bech32.Charset[21] == '4';
    assert Bech32.Charset[4] == 'y'; assert Bech32.Charset[20] == '5';
  }

  lemma MainnetP2wpkhChars4(ws: seq<Bech32.u5>)
    requires |ws| == 32 && ws[16] == 3 && ws[17] == 17 && ws[18] == 2 && ws[19] == 29
    ensures Bech32.ToChars(ws)[16] == 'r' && Bech32.ToChars(ws)[17] == '3' &&
            Bech32.ToChars(ws)[18] == 'z' && Bech32.ToChars(ws)[19] == 'a'
  {
    assert Bech32.Charset[3] == 'r'; assert Bech32.Charset[17] == '3';
    assert Bech32.Charset[2] == 'z'; assert Bech32.Charset[29] == 'a';
  }

  lemma MainnetP2wpkhChars5(ws: seq<Bech32.u5>)
    requires |ws| == 32 && ws[20] == 3 && ws[21] == 12 && ws[22] == 29 && ws[23] == 3
    ensures Bech32.ToChars(ws)[20] == 'r' && Bech32.ToChars(ws)[21] == 'v' &&
            Bech32.ToChars(ws)[22] == 'a' && Bech32.ToChars(ws)[23] == 'r'
  {
    assert Bech32.Charset[3] == 'r'; assert Bech32.Charset[12] == 'v';
    assert Bech32.Charset[29] == 'a'; assert Bech32.Charset[3] == 'r';
  }

  lemma MainnetP2wpkhChars6(ws: seq<Bech32.u5>)
    requires |ws| == 32 && ws[24] == 4 && ws[25] == 15 && ws[26] == 24 && ws[27] == 20
    ensures Bech32.ToChars(ws)[24] == 'y' && Bech32.ToChars(ws)[25] == '0' &&
            Bech32.ToChars(ws)[26] == 'c' && Bech32.ToChars(ws)[27] == '5'
  {
    assert Bech32.Charset[4] == 'y'; assert Bech32.Charset[15] == '0';
    assert Bech32.Charset[24] == 'c'; assert Bech32.Charset[20] == '5';
  }

  lemma MainnetP2wpkhChars7(ws: seq<Bech32.u5>)
    requires |ws| == 32 && ws[28] == 6 && ws[29] == 14 && ws[30] == 30 && ws[31] == 22
    ensures Bech32.ToChars(ws)[28] == 'x' && Bech32.ToChars(ws)[29] == 'w' &&
            Bech32.ToChars(ws)[30] == '7' && Bech32.ToChars(ws)[31] == 'k'
  {
    assert Bech32.Charset[6] == 'x'; assert Bech32.Charset[14] == 'w';
    assert Bech32.Charset[30] == '7'; assert Bech32.Charset[22] == 'k';
  }

  lemma MainnetP2wpkhChecksumChars(cs: seq<Bech32.u5>)
    requires cs == [12, 7, 9, 17, 11, 21]
    ensures Bech32.ToChars(cs)[0] == 'v' && Bech32.ToChars(cs)[1] == '8' &&
            Bech32.ToChars(cs)[2] == 'f' && Bech32.ToChars(cs)[3] == '3' &&
            Bech32.ToChars(cs)[4] == 't' && Bech32.ToChars(cs)[5] == '4'
  {
    assert Bech32.Charset[12] == 'v'; assert Bech32.Charset[7] == '8';
    assert Bech32.Charset[9] == 'f'; assert Bech32.Charset[17] == '3';
    assert Bech32.Charset[11] == 't'; assert Bech32.Charset[21] == '4';
  }

  lemma MainnetP2wpkhAssemble0(t: string, c: string)
    requires |t| == 32 && t[0] == 'w' && t[1] == '5' && t[2] == '0' && t[3] == '8' &&
             t[4] == 'd' && t[5] == '6' && t[6] == 'q' && t[7] == 'e' && t[8] == 'j' &&
             t[9] == 'x' && t[10] == 't' && t[11] == 'd'
    requires |c| == 6
    ensures ("bc" + "1" + [Bech32.Charset[0]] + t + c)[0] == 'b' &&
            ("bc" + "1" + [Bech32.Charset[0]] + t + c)[1] == 'c' &&
            ("bc" + "1" + [Bech32.Charset[0]] + t + c)[2] == '1' &&
            ("bc" + "1" + [Bech32.Charset[0]] + t + c)[3] == 'q' &&
            ("bc" + "1" + [Bech32.Charset[0]] + t + c)[4] == 'w' &&
            ("bc" + "1" + [Bech32.Charset[0]] + t + c)[5] == '5' &&
            ("bc" + "1" + [Bech32.Charset[0]] + t + c)[6] == '0' &&
            ("bc" + "1" + [Bech32.Charset[0]] + t + c)[7] == '8' &&
            ("bc" + "1" + [Bech32.Charset[0]] + t + c)[8] == 'd' &&
            ("bc" + "1" + [Bech32.Charset[0]] + t + c)[9] == '6' &&
            ("bc" + "1" + [Bech32.Charset[0]] + t + c)[10] == 'q' &&
            ("bc" + "1" + [Bech32.Charset[0]] + t + c)[11] == 'e' &&
            ("bc" + "1" + [Bech32.Charset[0]] + t + c)[12] == 'j' &&
            ("bc" + "1" + [Bech32.Charset[0]] + t + c)[13] == 'x' &&
            ("bc" + "1" + [Bech32.Charset[0]] + t + c)[14] == 't' &&
            ("bc" + "1" + [Bech32.Charset[0]] + t + c)[15] == 'd'
  {
    assert Bech32.Charset[0] == 'q';
  }

  lemma MainnetP2wpkhAssemble1(t: string, c: string)
    requires |t| == 32 && t[12] == 'g' && t[13] == '4' && t[14] == 'y' && t[15] == '5' &&
             t[16] == 'r' && t[17] == '3' && t[18] == 'z' && t[19] == 'a' && t[20] == 'r' &&
             t[21] == 'v' && t[22] == 'a' && t[23] == 'r' && t[24] == 'y' && t[25] == '0' &&
             t[26] == 'c' && t[27] == '5'
    requires |c| == 6
    ensures ("bc" + "1" + [Bech32.Charset[0]] + t + c)[16] == 'g' &&
            ("bc" + "1" + [Bech32.Charset[0]] + t + c)[17] == '4' &&
            ("bc" + "1" + [Bech32.Charset[0]] + t + c)[18] == 'y' &&
            ("bc" + "1" + [Bech32.Charset[0]] + t + c)[19] == '5' &&
            ("bc" + "1" + [Bech32.Charset[0]] + t + c)[20] == 'r' &&
            ("bc" + "1" + [Bech32.Charset[0]] + t + c)[21] == '3' &&
            ("bc" + "1" + [Bech32.Charset[0]] + t + c)[22] == 'z' &&
            ("bc" + "1" + [Bech32.Charset[0]] + t + c)[23] == 'a' &&
            ("bc" + "1" + [Bech32.Charset[0]] + t + c)[24] == 'r' &&
            ("bc" + "1" + [Bech32.Charset[0]] + t + c)[25] == 'v' &&
            ("bc" + "1" + [Bech32.Charset[0]] + t + c)[26] == 'a' &&
            ("bc" + "1" + [Bech32.Charset[0]] + t + c)[27] == 'r' &&
            ("bc" + "1" + [Bech32.Charset[0]] + t + c)[28] == 'y' &&
            ("bc" + "1" + [Bech32.Charset[0]] + t + c)[29] == '0' &&
            ("bc" + "1" + [Bech32.Charset[0]] + t + c)[30] == 'c' &&
            ("bc" + "1" + [Bech32.Charset[0]] + t + c)[31] == '5'
  {
  }

  lemma MainnetP2wpkhAssemble2(t: string, c: string)
    requires |t| == 32 && t[28] == 'x' && t[29] == 'w' && t[30] == '7' && t[31] == 'k'
    requires |c| == 6 && c[0] == 'v' && c[1] == '8' && c[2] == 'f' && c[3] == '3' && c[4] == 't' &&
             c[5] == '4'
    ensures ("bc" + "1" + [Bech32.Charset[0]] + t + c)[32] == 'x' &&
            ("bc" + "1" + [Bech32.Charset[0]] + t + c)[33] == 'w' &&
            ("bc" + "1" + [Bech32.Charset[0]] + t + c)[34] == '7' &&
            ("bc" + "1" + [Bech32.Charset[0]] + t + c)[35] == 'k' &&
            ("bc" + "1" + [Bech32.Charset[0]] + t + c)[36] == 'v' &&
            ("bc" + "1" + [Bech32.Charset[0]] + t + c)[37] == '8' &&
            ("bc" + "1" + [Bech32.Charset[0]] + t + c)[38] == 'f' &&
            ("bc" + "1" + [Bech32.Charset[0]] + t + c)[39] == '3' &&
            ("bc" + "1" + [Bech32.Charset[0]] + t + c)[40] == 't' &&
            ("bc" + "1" + [Bech32.Charset[0]] + t + c)[41] == '4'
  {
  }

  lemma MainnetP2wpkhLiteral()
    ensures "bc1qw508d6qejxtdg4y5r" + "3zarvary0c5xw7kv8f3t4" == "bc1qw508d6qejxtdg4y5r3zarvary0c5xw7kv8f3t4"
  {}

  lemma MainnetP2wpkhGlue(e: string)
    requires |e| == 42 && e[0] == 'b' && e[1] == 'c' && e[2] == '1' && e[3] == 'q' &&
             e[4] == 'w' && e[5] == '5' && e[6] == '0' && e[7] == '8' && e[8] == 'd' &&
             e[9] == '6' && e[10] == 'q' && e[11] == 'e' && e[12] == 'j' && e[13] == 'x' &&
             e[14] == 't' && e[15] == 'd' && e[16] == 'g' && e[17] == '4' && e[18] == 'y' &&
             e[19] == '5' && e[20] == 'r' && e[21] == '3' && e[22] == 'z' && e[23] == 'a' &&
             e[24] == 'r' && e[25] == 'v' && e[26] == 'a' && e[27] == 'r' && e[28] == 'y' &&
             e[29] == '0' && e[30] == 'c' && e[31] == '5' && e[32] == 'x' && e[33] == 'w' &&
             e[34] == '7' && e[35] == 'k' && e[36] == 'v' && e[37] == '8' && e[38] == 'f' &&
             e[39] == '3' && e[40] == 't' && e[41] == '4'
    ensures e == "bc1qw508d6qejxtdg4y5r3zarvary0c5xw7kv8f3t4"
  {
    MainnetP2wpkhLiteral();
    assert e == "bc1qw508d6qejxtdg4y5r" + "3zarvary0c5xw7kv8f3t4";
  }

  lemma MainnetP2wpkhAssemble(t: string, c: string)
    requires |t| == 32 && t[0] == 'w' && t[1] == '5' && t[2] == '0' && t[3] == '8' &&
             t[4] == 'd' && t[5] == '6' && t[6] == 'q' && t[7] == 'e' && t[8] == 'j' &&
             t[9] == 'x' && t[10] == 't' && t[11] == 'd' && t[12] == 'g' && t[13] == '4' &&
             t[14] == 'y' && t[15] == '5' && t[16] == 'r' && t[17] == '3' && t[18] == 'z' &&
             t[19] == 'a' && t[20] == 'r' && t[21] == 'v' && t[22] == 'a' && t[23] == 'r' &&
             t[24] == 'y' && t[25] == '0' && t[26] == 'c' && t[27] == '5' && t[28] == 'x' &&
             t[29] == 'w' && t[30] == '7' && t[31] == 'k'
    requires |c| == 6 && c[0] == 'v' && c[1] == '8' && c[2] == 'f' && c[3] == '3' && c[4] == 't' &&
             c[5] == '4'
    ensures "bc" + "1" + [Bech32.Charset[0]] + t + c == "bc1qw508d6qejxtdg4y5r3zarvary0c5xw7kv8f3t4"
  {
    MainnetP2wpkhAssemble0(t, c);
    MainnetP2wpkhAssemble1(t, c);
    MainnetP2wpkhAssemble2(t, c);
    MainnetP2wpkhGlue("bc" + "1" + [Bech32.Charset[0]] + t + c);
  }

  lemma MainnetP2wpkhProgramChars(ws: seq<Bech32.u5>)
    requires |ws| == 32 && ws[0] == 14 && ws[1] == 20 && ws[2] == 15 && ws[3] == 7 &&
             ws[4] == 13 && ws[5] == 26 && ws[6] == 0 && ws[7] == 25 && ws[8] == 18 &&
             ws[9] == 6 && ws[10] == 11 && ws[11] == 13 && ws[12] == 8 && ws[13] == 21 &&
             ws[14] == 4 && ws[15] == 20 && ws[16] == 3 && ws[17] == 17 && ws[18] == 2 &&
             ws[19] == 29 && ws[20] == 3 && ws[21] == 12 && ws[22] == 29 && ws[23] == 3 &&
             ws[24] == 4 && ws[25] == 15 && ws[26] == 24 && ws[27] == 20 && ws[28] == 6 &&
             ws[29] == 14 && ws[30] == 30 && ws[31] == 22
    ensures |Bech32.ToChars(ws)| == 32
    ensures Bech32.ToChars(ws)[0] == 'w' && Bech32.ToChars(ws)[1] == '5' &&
            Bech32.ToChars(ws)[2] == '0' && Bech32.ToChars(ws)[3] == '8' &&
            Bech32.ToChars(ws)[4] == 'd' && Bech32.ToChars(ws)[5] == '6' &&
            Bech32.ToChars(ws)[6] == 'q' && Bech32.ToChars(ws)[7] == 'e' &&
            Bech32.ToChars(ws)[8] == 'j' && Bech32.ToChars(ws)[9] == 'x' &&
            Bech32.ToChars(ws)[10] == 't' && Bech32.ToChars(ws)[11] == 'd' &&
            Bech32.ToChars(ws)[12] == 'g' && Bech32.ToChars(ws)[13] == '4' &&
            Bech32.ToChars(ws)[14] == 'y' && Bech32.ToChars(ws)[15] == '5' &&
            Bech32.ToChars(ws)[16] == 'r' && Bech32.ToChars(ws)[17] == '3' &&
            Bech32.ToChars(ws)[18] == 'z' && Bech32.ToChars(ws)[19] == 'a' &&
            Bech32.ToChars(ws)[20] == 'r' && Bech32.ToChars(ws)[21] == 'v' &&
            Bech32.ToChars(ws)[22] == 'a' && Bech32.ToChars(ws)[23] == 'r' &&
            Bech32.ToChars(ws)[24] == 'y' && Bech32.ToChars(ws)[25] == '0' &&
            Bech32.ToChars(ws)[26] == 'c' && Bech32.ToChars(ws)[27] == '5' &&
            Bech32.ToChars(ws)[28] == 'x' && Bech32.ToChars(ws)[29] == 'w' &&
            Bech32.ToChars(ws)[30] == '7' && Bech32.ToChars(ws)[31] == 'k'
  {
    MainnetP2wpkhChars0(ws);
    MainnetP2wpkhChars1(ws);
    MainnetP2wpkhChars2(ws);
    MainnetP2wpkhChars3(ws);
    MainnetP2wpkhChars4(ws);
    MainnetP2wpkhChars5(ws);
    MainnetP2wpkhChars6(ws);
    MainnetP2wpkhChars7(ws);
  }

  lemma MainnetP2wpkhWordChars(p: seq<byte>)
    requires WpkhProgram(p)
    ensures |Bech32.ToChars(Segwit.ToWords(p))| == 32
    ensures Bech32.ToChars(Segwit.ToWords(p))[0] == 'w' &&
            Bech32.ToChars(Segwit.ToWords(p))[1] == '5' &&
            Bech32.ToChars(Segwit.ToWords(p))[2] == '0' &&
            Bech32.ToChars(Segwit.ToWords(p))[3] == '8' &&
            Bech32.ToChars(Segwit.ToWords(p))[4] == 'd' &&
            Bech32.ToChars(Segwit.ToWords(p))[5] == '6' &&
            Bech32.ToChars(Segwit.ToWords(p))[6] == 'q' &&
            Bech32.ToChars(Segwit.ToWords(p))[7] == 'e' &&
            Bech32.ToChars(Segwit.ToWords(p))[8] == 'j' &&
            Bech32.ToChars(Segwit.ToWords(p))[9] == 'x' &&
            Bech32.ToChars(Segwit.ToWords(p))[10] == 't' &&
            Bech32.ToChars(Segwit.ToWords(p))[11] == 'd' &&
            Bech32.ToChars(Segwit.ToWords(p))[12] == 'g' &&
            Bech32.ToChars(Segwit.ToWords(p))[13] == '4' &&
            Bech32.ToChars(Segwit.ToWords(p))[14] == 'y' &&
            Bech32.ToChars(Segwit.ToWords(p))[15] == '5' &&
            Bech32.ToChars(Segwit.ToWords(p))[16] == 'r' &&
            Bech32.ToChars(Segwit.ToWords(p))[17] == '3' &&
            Bech32.ToChars(Segwit.ToWords(p))[18] == 'z' &&
            Bech32.ToChars(Segwit.ToWords(p))[19] == 'a' &&
            Bech32.ToChars(Segwit.ToWords(p))[20] == 'r' &&
            Bech32.ToChars(Segwit.ToWords(p))[21] == 'v' &&
            Bech32.ToChars(Segwit.ToWords(p))[22] == 'a' &&
            Bech32.ToChars(Segwit.ToWords(p))[23] == 'r' &&
            Bech32.ToChars(Segwit.ToWords(p))[24] == 'y' &&
            Bech32.ToChars(Segwit.ToWords(p))[25] == '0' &&
            Bech32.ToChars(Segwit.ToWords(p))[26] == 'c' &&
            Bech32.ToChars(Segwit.ToWords(p))[27] == '5' &&
            Bech32.ToChars(Segwit.ToWords(p))[28] == 'x' &&
            Bech32.ToChars(Segwit.ToWords(p))[29] == 'w' &&
            Bech32.ToChars(Segwit.ToWords(p))[30] == '7' &&
            Bech32.ToChars(Segwit.ToWords(p))[31] == 'k'
  {
    WpkhWordsAt0(p);
    WpkhWordsAt1(p);
    WpkhWordsAt2(p);
    WpkhWordsAt3(p);
    WpkhWordsAt4(p);
    WpkhWordsAt5(p);
    WpkhWordsAt6(p);
    WpkhWordsAt7(p);
    MainnetP2wpkhProgramChars(Segwit.ToWords(p));
  }

  /** The text of the address, assembled from its characters. */
  lemma MainnetP2wpkhText(p: seq<byte>)
    requires WpkhProgram(p)
    ensures Segwit.Encode("bc", 0, p) == "bc1qw508d6qejxtdg4y5r3zarvary0c5xw7kv8f3t4"
  {
    var ws := Segwit.ToWords(p);
    var cs := Bech32.CreateChecksum("bc", [0] + ws);
    EncodeParts("bc", 0, p);
    MainnetP2wpkhWordChars(p);
    MainnetP2wpkhChecksum(p);
    MainnetP2wpkhChecksumChars(cs);
    MainnetP2wpkhAssemble(Bech32.ToChars(ws), Bech32.ToChars(cs));
  }

  /** test/address-test.js:83-89. */
  lemma MainnetP2wpkh(hash: Base58Check.Hasher, p: seq<byte>)
    requires WpkhProgram(p)
    ensures Address.FromWitnessPubkeyhash(p) == Ok(Address.Address(Address.Witness(0), p, Networks.Main))
    ensures Address.ToString(hash, Address.Address(Address.Witness(0), p, Networks.Main)) == "bc1qw508d6qejxtdg4y5r3zarvary0c5xw7kv8f3t4"
  {
    MainnetP2wpkhText(p);
  }

  lemma MainnetP2wshResidue0(p: seq<byte>)
    requires WshProgram(p) && |Segwit.ToWords(p)| == 52 && Residue(1029332946, Segwit.ToWords(p), 0) == 1029332946
    ensures Residue(1029332946, Segwit.ToWords(p), 4) == 291917579
  {
    WshWordsAt0(p);
    var ws := Segwit.ToWords(p);
    ResidueNext(1029332946, ws, 0, 1029332946, 3, 82590906);
    ResidueNext(1029332946, ws, 1, 82590906, 1, 1003952428);
    ResidueNext(1029332946, ws, 2, 1003952428, 17, 142490295);
    ResidueNext(1029332946, ws, 3, 142490295, 17, 291917579);
  }

  lemma MainnetP2wshResidue1(p: seq<byte>)
    requires WshProgram(p) && |Segwit.ToWords(p)| == 52 && Residue(1029332946, Segwit.ToWords(p), 4) == 291917579
    ensures Residue(1029332946, Segwit.ToWords(p), 8) == 728411071
  {
    WshWordsAt1(p);
    var ws := Segwit.ToWords(p);
    ResidueNext(1029332946, ws, 4, 291917579, 8, 294376117);
    ResidueNext(1029332946, ws, 5, 294376117, 15, 205022578);
    ResidueNext(1029332946, ws, 6, 205022578, 0, 1073560023);
    ResidueNext(1029332946, ws, 7, 1073560023, 20, 728411071);
  }

  lemma MainnetP2wshResidue2(p: seq<byte>)
    requires WshProgram(p) && |Segwit.ToWords(p)| == 52 && Residue(1029332946, Segwit.ToWords(p), 8) == 728411071
    ensures Residue(1029332946, Segwit.ToWords(p), 12) == 141495481
  {
    WshWordsAt2(p);
    var ws := Segwit.ToWords(p);
    ResidueNext(1029332946, ws, 8, 728411071, 24, 579492611);
    ResidueNext(1029332946, ws, 9, 579492611, 20, 3495285);
    ResidueNext(1029332946, ws, 10, 3495285, 11, 111849131);
    ResidueNext(1029332946, ws, 11, 111849131, 6, 141495481);
  }

  lemma MainnetP2wshResidue3(p: seq<byte>)
    requires WshProgram(p) && |Segwit.ToWords(p)| == 52 && Residue(1029332946, Segwit.ToWords(p), 12) == 141495481
    ensures Residue(1029332946, Segwit.ToWords(p), 16) == 1049577707
  {
    WshWordsAt3(p);
    var ws := Segwit.ToWords(p);
    ResidueNext(1029332946, ws, 12, 141495481, 16, 322997962);
    ResidueNext(1029332946, ws, 13, 322997962, 1, 775535918);
    ResidueNext(1029332946, ws, 14, 775535918, 5, 783812435);
    ResidueNext(1029332946, ws, 15, 783812435, 29, 1049577707);
  }

  lemma MainnetP2wshResidue4(p: seq<byte>)
    requires WshProgram(p) && |Segwit.ToWords(p)| == 52 && Residue(1029332946, Segwit.ToWords(p), 16) == 1049577707
    ensures Residue(1029332946, Segwit.ToWords(p), 20) == 941188418
  {
    WshWordsAt4(p);
    var ws := Segwit.ToWords(p);
    ResidueNext(1029332946, ws, 16, 1049577707, 3, 86281256);
    ResidueNext(1029332946, ws, 17, 86281256, 4, 46205801);
    ResidueNext(1029332946, ws, 18, 46205801, 16, 592132738);
    ResidueNext(1029332946, ws, 19, 592132738, 3, 941188418);
  }

  lemma MainnetP2wshResidue5(p: seq<byte>)
    requires WshProgram(p) && |Segwit.ToWords(p)| == 52 && Residue(1029332946, Segwit.ToWords(p), 20) == 941188418
    ensures Residue(1029332946, Segwit.ToWords(p), 24) == 1065879560
  {
    WshWordsAt5(p);
    var ws := Segwit.ToWords(p);
    ResidueNext(1029332946, ws, 20, 941188418, 6, 182182098);
    ResidueNext(1029332946, ws, 21, 182182098, 21, 1052202013);
    ResidueNext(1029332946, ws, 22, 1052202013, 22, 36115197);
    ResidueNext(1029332946, ws, 23, 36115197, 26, 1065879560);
  }

  lemma MainnetP2wshResidue6(p: seq<byte>)
    requires WshProgram(p) && |Segwit.ToWords(p)| == 52 && Residue(1029332946, Segwit.ToWords(p), 24) == 1065879560
    ensures Residue(1029332946, Segwit.ToWords(p), 28) == 512188641
  {
    WshWordsAt6(p);
    var ws := Segwit.ToWords(p);
    ResidueNext(1029332946, ws, 24, 1065879560, 2, 634163273);
    ResidueNext(1029332946, ws, 25, 634163273, 13, 903276019);
    ResidueNext(1029332946, ws, 26, 903276019, 22, 198861173);
    ResidueNext(1029332946, ws, 27, 198861173, 9, 512188641);
  }

  lemma MainnetP2wshResidue7(p: seq<byte>)
    requires WshProgram(p) && |Segwit.ToWords(p)| == 52 && Residue(1029332946, Segwit.ToWords(p), 28) == 512188641
    ensures Residue(1029332946, Segwit.ToWords(p), 32) == 989961373
  {
    WshWordsAt7(p);
    var ws := Segwit.ToWords(p);
    ResidueNext(1029332946, ws, 28, 512188641, 16, 775286728);
    ResidueNext(1029332946, ws, 29, 775286728, 21, 791829379);
    ResidueNext(1029332946, ws, 30, 791829379, 19, 264557285);
    ResidueNext(1029332946, ws, 31, 264557285, 24, 989961373);
  }

  lemma MainnetP2wshResidue8(p: seq<byte>)
    requires WshProgram(p) && |Segwit.ToWords(p)| == 52 && Residue(1029332946, Segwit.ToWords(p), 32) == 989961373
    ensures Residue(1029332946, Segwit.ToWords(p), 36) == 723889574
  {
    WshWordsAt8(p);
    var ws := Segwit.ToWords(p);
    ResidueNext(1029332946, ws, 32, 989961373, 25, 313429151);
    ResidueNext(1029332946, ws, 33, 313429151, 21, 335148954);
    ResidueNext(1029332946, ws, 34, 335148954, 6, 957781801);
    ResidueNext(1029332946, ws, 35, 957781801, 18, 723889574);
  }

  lemma MainnetP2wshResidue9(p: seq<byte>)
    requires WshProgram(p) && |Segwit.ToWords(p)| == 52 && Residue(1029332946, Segwit.ToWords(p), 36) == 723889574
    ensures Residue(1029332946, Segwit.ToWords(p), 40) == 527396248
  {
    WshWordsAt9(p);
    var ws := Segwit.ToWords(p);
    ResidueNext(1029332946, ws, 36, 723889574, 15, 728406068);
    ResidueNext(1029332946, ws, 37, 728406068, 8, 579611251);
    ResidueNext(1029332946, ws, 38, 579611251, 13, 16481132);
    ResidueNext(1029332946, ws, 39, 16481132, 24, 527396248);
  }

  lemma MainnetP2wshResidue10(p: seq<byte>)
    requires WshProgram(p) && |Segwit.ToWords(p)| == 52 && Residue(1029332946, Segwit.ToWords(p), 40) == 527396248
    ensures Residue(1029332946, Segwit.ToWords(p), 44) == 396367874
  {
    WshWordsAt10(p);
    var ws := Segwit.ToWords(p);
    ResidueNext(1029332946, ws, 40, 527396248, 24, 322191584);
    ResidueNext(1029332946, ws, 41, 322191584, 24, 547387511);
    ResidueNext(1029332946, ws, 42, 547387511, 25, 1041984586);
    ResidueNext(1029332946, ws, 43, 1041984586, 9, 396367874);
  }

  lemma MainnetP2wshResidue11(p: seq<byte>)
    requires WshProgram(p) && |Segwit.ToWords(p)| == 52 && Residue(1029332946, Segwit.ToWords(p), 44) == 396367874
    ensures Residue(1029332946, Segwit.ToWords(p), 48) == 1040095378
  {
    WshWordsAt11(p);
    var ws := Segwit.ToWords(p);
    ResidueNext(1029332946, ws, 44, 396367874, 12, 343665230);
    ResidueNext(1029332946, ws, 45, 343665230, 1, 342881393);
    ResidueNext(1029332946, ws, 46, 342881393, 4, 384578452);
    ResidueNext(1029332946, ws, 47, 384578452, 16, 1040095378);
  }

  lemma MainnetP2wshResidue12(p: seq<byte>)
    requires WshProgram(p) && |Segwit.ToWords(p)| == 52 && Residue(1029332946, Segwit.ToWords(p), 48) == 1040095378
    ensures Residue(1029332946, Segwit.ToWords(p), 52) == 90760098
  {
    WshWordsAt12(p);
    var ws := Segwit.ToWords(p);
    ResidueNext(1029332946, ws, 48, 1040095378, 6, 276092095);
    ResidueNext(1029332946, ws, 49, 276092095, 9, 869835828);
    ResidueNext(1029332946, ws, 50, 869835828, 17, 388530253);
    ResidueNext(1029332946, ws, 51, 388530253, 0, 90760098);
  }

  /** The residue over the program's words, after the human-readable part and the version. */
  lemma MainnetP2wshWordsResidue(p: seq<byte>)
    requires WshProgram(p)
    ensures Bech32.PolymodFrom(1029332946, Segwit.ToWords(p)) == 90760098
  {
    WshWordsAt0(p);
    var ws := Segwit.ToWords(p);
    MainnetP2wshResidue0(p);
    MainnetP2wshResidue1(p);
    MainnetP2wshResidue2(p);
    MainnetP2wshResidue3(p);
    MainnetP2wshResidue4(p);
    MainnetP2wshResidue5(p);
    MainnetP2wshResidue6(p);
    MainnetP2wshResidue7(p);
    MainnetP2wshResidue8(p);
    MainnetP2wshResidue9(p);
    MainnetP2wshResidue10(p);
    MainnetP2wshResidue11(p);
    MainnetP2wshResidue12(p);
    ResidueAll(1029332946, ws);
  }

  /** The residue of the checksum input: expanded "bc", the version, the program's words, six zeros. */
  lemma MainnetP2wshResidue(p: seq<byte>)
    requires WshProgram(p)
    ensures Bech32.Polymod(Bech32.HrpExpand("bc") + ([0] + Segwit.ToWords(p)) + Bech32.ZeroWords(6)) == 830795152
  {
    var h, ws := Bech32.HrpExpand("bc"), Segwit.ToWords(p);
    HrpResidueBC();
    MainnetP2wshWordsResidue(p);
    Bech32.PolymodAppend(1, h + ([0] + ws), Bech32.ZeroWords(6));
    Bech32.PolymodAppend(1, h, [0] + ws);
    assert ([0] + ws)[1..] == ws;
    Bech32.Unfold1(36798531, [0] + ws);
    Bech32.Unfold6(90760098, Bech32.ZeroWords(6));
  }

  lemma MainnetP2wshChecksum(p: seq<byte>)
    requires WshProgram(p)
    ensures Bech32.CreateChecksum("bc", [0] + Segwit.ToWords(p)) == [24, 24, 9, 27, 12, 17]
  {
    MainnetP2wshResidue(p);
  }

  lemma MainnetP2wshChars0(ws: seq<Bech32.u5>)
    requires |ws| == 52 && ws[0] == 3 && ws[1] == 1 && ws[2] == 17 && ws[3] == 17
    ensures Bech32.ToChars(ws)[0] == 'r' && Bech32.ToChars(ws)[1] == 'p' &&
            Bech32.ToChars(ws)[2] == '3' && Bech32.ToChars(ws)[3] == '3'
  {
    assert Bech32.Charset[3] == 'r'; assert Bech32.Charset[1] == 'p';
    assert Bech32.Charset[17] == '3'; assert Bech32.Charset[17] == '3';
  }

  lemma MainnetP2wshChars1(ws: seq<Bech32.u5>)
    requires |ws| == 52 && ws[4] == 8 && ws[5] == 15 && ws[6] == 0 && ws[7] == 20
    ensures Bech32.ToChars(ws)[4] == 'g' && Bech32.ToChars(ws)[5] == '0' &&
            Bech32.ToChars(ws)[6] == 'q' && Bech32.ToChars(ws)[7] == '5'
  {
    assert Bech32.Charset[8] == 'g'; assert Bech32.Charset[15] == '0';
    assert Bech32.Charset[0] == 'q'; assert Bech32.Charset[20] == '5';
  }

  lemma MainnetP2wshChars2(ws: seq<Bech32.u5>)
    requires |ws| == 52 && ws[8] == 24 && ws[9] == 20 && ws[10] == 11 && ws[11] == 6
    ensures Bech32.ToChars(ws)[8] == 'c' && Bech32.ToChars(ws)[9] == '5' &&
            Bech32.ToChars(ws)[10] == 't' && Bech32.ToChars(ws)[11] == 'x'
  {
    assert Bech32.Charset[24] == 'c'; assert Bech32.Charset[20] == '5';
    assert Bech32.Charset[11] == 't'; assert Bech32.Charset[6] == 'x';
  }

  lemma MainnetP2wshChars3(ws: seq<Bech32.u5>)
    requires |ws| == 52 && ws[12] == 16 && ws[13] == 1 && ws[14] == 5 && ws[15] == 29
    ensures Bech32.ToChars(ws)[12] == 's' && Bech32.ToChars(ws)[13] == 'p' &&
            Bech32.ToChars(ws)[14] == '9' && Bech32.ToChars(ws)[15] == 'a'
  {
    assert Bech32.Charset[16] == 's'; assert Bech32.Charset[1] == 'p';
    assert Bech32.Charset[5] == '9'; assert Bech32.Charset[29] == 'a';
  }

  lemma MainnetP2wshChars4(ws: seq<Bech32.u5>)
    requires |ws| == 52 && ws[16] == 3 && ws[17] == 4 && ws[18] == 16 && ws[19] == 3
    ensures Bech32.ToChars(ws)[16] == 'r' && Bech32.ToChars(ws)[17] == 'y' &&
            Bech32.ToChars(ws)[18] == 's' && Bech32.ToChars(ws)[19] == 'r'
  {
    assert Bech32.Charset[3] == 'r'; assert Bech32.Charset[4] == 'y';
    assert Bech32.Charset[16] == 's'; assert Bech32.Charset[3] == 'r';
  }

  lemma MainnetP2wshChars5(ws: seq<Bech32.u5>)
    requires |ws| == 52 && ws[20] == 6 && ws[21] == 21 && ws[22] == 22 && ws[23] == 26
    ensures Bech32.ToChars(ws)[20] == 'x' && Bech32.ToChars(ws)[21] == '4' &&
            Bech32.ToChars(ws)[22] == 'k' && Bech32.ToChars(ws)[23] == '6'
  {
    assert Bech32.Charset[6] == 'x'; assert Bech32.Charset[21] == '4';
    assert Bech32.Charset[22] == 'k'; assert Bech32.Charset[26] == '6';
  }

  lemma MainnetP2wshChars6(ws: seq<Bech32.u5>)
    requires |ws| == 52 && ws[24] == 2 && ws[25] == 13 && ws[26] == 22 && ws[27] == 9
    ensures Bech32.ToChars(ws)[24] == 'z' && Bech32.ToChars(ws)[25] == 'd' &&
            Bech32.ToChars(ws)[26] == 'k' && Bech32.ToChars(ws)[27] == 'f'
  {
    assert Bech32.Charset[2] == 'z'; assert Bech32.Charset[13] == 'd';
    assert Bech32.Charset[22] == 'k'; assert Bech32.Charset[9] == 'f';
  }

  lemma MainnetP2wshChars7(ws: seq<Bech32.u5>)
    requires |ws| == 52 && ws[28] == 16 && ws[29] == 21 && ws[30] == 19 && ws[31] == 24
    ensures Bech32.ToChars(ws)[28] == 's' && Bech32.ToChars(ws)[29] == '4' &&
            Bech32.ToChars(ws)[30] == 'n' && Bech32.ToChars(ws)[31] == 'c'
  {
    assert Bech32.Charset[16] == 's'; assert Bech32.Charset[21] == '4';
    assert Bech32.Charset[19] == 'n'; assert Bech32.Charset[24] == 'c';
  }

  lemma MainnetP2wshChars8(ws: seq<Bech32.u5>)
    requires |ws| == 52 && ws[32] == 25 && ws[33] == 21 && ws[34] == 6 && ws[35] == 18
    ensures Bech32.ToChars(ws)[32] == 'e' && Bech32.ToChars(ws)[33] == '4' &&
            Bech32.ToChars(ws)[34] == 'x' && Bech32.ToChars(ws)[35] == 'j'
  {
    assert Bech32.Charset[25] == 'e'; assert Bech32.Charset[21] == '4';
    assert Bech32.Charset[6] == 'x'; assert Bech32.Charset[18] == 'j';
  }

  lemma MainnetP2wshChars9(ws: seq<Bech32.u5>)
    requires |ws| == 52 && ws[36] == 15 && ws[37] == 8 && ws[38] == 13 && ws[39] == 24
    ensures Bech32.ToChars(ws)[36] == '0' && Bech32.ToChars(ws)[37] == 'g' &&
            Bech32.ToChars(ws)[38] == 'd' && Bech32.ToChars(ws)[39] == 'c'
  {
    assert Bech32.Charset[15] == '0'; assert Bech32.Charset[8] == 'g';
    assert Bech32.Charset[13] == 'd'; assert Bech32.Charset[24] == 'c';
  }

  lemma MainnetP2wshChars10(ws: seq<Bech32.u5>)
    requires |ws| == 52 && ws[40] == 24 && ws[41] == 24 && ws[42] == 25 && ws[43] == 9
    ensures Bech32.ToChars(ws)[40] == 'c' && Bech32.ToChars(ws)[41] == 'c' &&
            Bech32.ToChars(ws)[42] == 'e' && Bech32.ToChars(ws)[43] == 'f'
  {
    assert Bech32.Charset[24] == 'c'; assert Bech32.Charset[24] == 'c';
    assert Bech32.Charset[25] == 'e'; assert Bech32.Charset[9] == 'f';
  }

  lemma MainnetP2wshChars11(ws: seq<Bech32.u5>)
    requires |ws| == 52 && ws[44] == 12 && ws[45] == 1 && ws[46] == 4 && ws[47] == 16
    ensures Bech32.ToChars(ws)[44] == 'v' && Bech32.ToChars(ws)[45] == 'p' &&
            Bech32.ToChars(ws)[46] == 'y' && Bech32.ToChars(ws)[47] == 's'
  {
    assert Bech32.Charset[12] == 'v'; assert Bech32.Charset[1] == 'p';
    assert Bech32.Charset[4] == 'y'; assert Bech32.Charset[16] == 's';
  }

  lemma MainnetP2wshChars12(ws: seq<Bech32.u5>)
    requires |ws| == 52 && ws[48] == 6 && ws[49] == 9 && ws[50] == 17 && ws[51] == 0
    ensures Bech32.ToChars(ws)[48] == 'x' && Bech32.ToChars(ws)[49] == 'f' &&
            Bech32.ToChars(ws)[50] == '3' && Bech32.ToChars(ws)[51] == 'q'
  {
    assert Bech32.Charset[6] == 'x'; assert Bech32.Charset[9] == 'f';
    assert Bech32.Charset[17] == '3'; assert Bech32.Charset[0] == 'q';
  }

  lemma MainnetP2wshChecksumChars(cs: seq<Bech32.u5>)
    requires cs == [24, 24, 9, 27, 12, 17]
    ensures Bech32.ToChars(cs)[0] == 'c' && Bech32.ToChars(cs)[1] == 'c' &&
            Bech32.ToChars(cs)[2] == 'f' && Bech32.ToChars(cs)[3] == 'm' &&
            Bech32.ToChars(cs)[4] == 'v' && Bech32.ToChars(cs)[5] == '3'
  {
    assert Bech32.Charset[24] == 'c'; assert Bech32.Charset[24] == 'c';
    assert Bech32.Charset[9] == 'f'; assert Bech32.Charset[27] == 'm';
    assert Bech32.Charset[12] == 'v'; assert Bech32.Charset[17] == '3';
  }

  lemma MainnetP2wshAssemble0(t: string, c: string)
    requires |t| == 52 && t[0] == 'r' && t[1] == 'p' && t[2] == '3' && t[3] == '3' &&
             t[4] == 'g' && t[5] == '0' && t[6] == 'q' && t[7] == '5' && t[8] == 'c' &&
             t[9] == '5' && t[10] == 't' && t[11] == 'x'
    requires |c| == 6
    ensures ("bc" + "1" + [Bech32.Charset[0]] + t + c)[0] == 'b' &&
            ("bc" + "1" + [Bech32.Charset[0]] + t + c)[1] == 'c' &&
            ("bc" + "1" + [Bech32.Charset[0]] + t + c)[2] == '1' &&
            ("bc" + "1" + [Bech32.Charset[0]] + t + c)[3] == 'q' &&
            ("bc" + "1" + [Bech32.Charset[0]] + t + c)[4] == 'r' &&
            ("bc" + "1" + [Bech32.Charset[0]] + t + c)[5] == 'p' &&
            ("bc" + "1" + [Bech32.Charset[0]] + t + c)[6] == '3' &&
            ("bc" + "1" + [Bech32.Charset[0]] + t + c)[7] == '3' &&
            ("bc" + "1" + [Bech32.Charset[0]] + t + c)[8] == 'g' &&
            ("bc" + "1" + [Bech32.Charset[0]] + t + c)[9] == '0' &&
            ("bc" + "1" + [Bech32.Charset[0]] + t + c)[10] == 'q' &&
            ("bc" + "1" + [Bech32.Charset[0]] + t + c)[11] == '5' &&
            ("bc" + "1" + [Bech32.Charset[0]] + t + c)[12] == 'c' &&
            ("bc" + "1" + [Bech32.Charset[0]] + t + c)[13] == '5' &&
            ("bc" + "1" + [Bech32.Charset[0]] + t + c)[14] == 't' &&
            ("bc" + "1" + [Bech32.Charset[0]] + t + c)[15] == 'x'
  {
    assert Bech32.Charset[0] == 'q';
  }

  lemma MainnetP2wshAssemble1(t: string, c: string)
    requires |t| == 52 && t[12] == 's' && t[13] == 'p' && t[14] == '9' && t[15] == 'a' &&
             t[16] == 'r' && t[17] == 'y' && t[18] == 's' && t[19] == 'r' && t[20] == 'x' &&
             t[21] == '4' && t[22] == 'k' && t[23] == '6' && t[24] == 'z' && t[25] == 'd' &&
             t[26] == 'k' && t[27] == 'f'
    requires |c| == 6
    ensures ("bc" + "1" + [Bech32.Charset[0]] + t + c)[16] == 's' &&
            ("bc" + "1" + [Bech32.Charset[0]] + t + c)[17] == 'p' &&
            ("bc" + "1" + [Bech32.Charset[0]] + t + c)[18] == '9' &&
            ("bc" + "1" + [Bech32.Charset[0]] + t + c)[19] == 'a' &&
            ("bc" + "1" + [Bech32.Charset[0]] + t + c)[20] == 'r' &&
            ("bc" + "1" + [Bech32.Charset[0]] + t + c)[21] == 'y' &&
            ("bc" + "1" + [Bech32.Charset[0]] + t + c)[22] == 's' &&
            ("bc" + "1" + [Bech32.Charset[0]] + t + c)[23] == 'r' &&
            ("bc" + "1" + [Bech32.Charset[0]] + t + c)[24] == 'x' &&
            ("bc" + "1" + [Bech32.Charset[0]] + t + c)[25] == '4' &&
            ("bc" + "1" + [Bech32.Charset[0]] + t + c)[26] == 'k' &&
            ("bc" + "1" + [Bech32.Charset[0]] + t + c)[27] == '6' &&
            ("bc" + "1" + [Bech32.Charset[0]] + t + c)[28] == 'z' &&
            ("bc" + "1" + [Bech32.Charset[0]] + t + c)[29] == 'd' &&
            ("bc" + "1" + [Bech32.Charset[0]] + t + c)[30] == 'k' &&
            ("bc" + "1" + [Bech32.Charset[0]] + t + c)[31] == 'f'
  {
  }

  lemma MainnetP2wshAssemble2(t: string, c: string)
    requires |t| == 52 && t[28] == 's' && t[29] == '4' && t[30] == 'n' && t[31] == 'c' &&
             t[32] == 'e' && t[33] == '4' && t[34] == 'x' && t[35] == 'j' && t[36] == '0' &&
             t[37] == 'g' && t[38] == 'd' && t[39] == 'c' && t[40] == 'c' && t[41] == 'c' &&
             t[42] == 'e' && t[43] == 'f'
    requires |c| == 6
    ensures ("bc" + "1" + [Bech32.Charset[0]] + t + c)[32] == 's' &&
            ("bc" + "1" + [Bech32.Charset[0]] + t + c)[33] == '4' &&
            ("bc" + "1" + [Bech32.Charset[0]] + t + c)[34] == 'n' &&
            ("bc" + "1" + [Bech32.Charset[0]] + t + c)[35] == 'c' &&
            ("bc" + "1" + [Bech32.Charset[0]] + t + c)[36] == 'e' &&
            ("bc" + "1" + [Bech32.Charset[0]] + t + c)[37] == '4' &&
            ("bc" + "1" + [Bech32.Charset[0]] + t + c)[38] == 'x' &&
            ("bc" + "1" + [Bech32.Charset[0]] + t + c)[39] == 'j' &&
            ("bc" + "1" + [Bech32.Charset[0]] + t + c)[40] == '0' &&
            ("bc" + "1" + [Bech32.Charset[0]] + t + c)[41] == 'g' &&
            ("bc" + "1" + [Bech32.Charset[0]] + t + c)[42] == 'd' &&
            ("bc" + "1" + [Bech32.Charset[0]] + t + c)[43] == 'c' &&
            ("bc" + "1" + [Bech32.Charset[0]] + t + c)[44] == 'c' &&
            ("bc" + "1" + [Bech32.Charset[0]] + t + c)[45] == 'c' &&
            ("bc" + "1" + [Bech32.Charset[0]] + t + c)[46] == 'e' &&
            ("bc" + "1" + [Bech32.Charset[0]] + t + c)[47] == 'f'
  {
  }

  lemma MainnetP2wshAssemble3(t: string, c: string)
    requires |t| == 52 && t[44] == 'v' && t[45] == 'p' && t[46] == 'y' && t[47] == 's' &&
             t[48] == 'x' && t[49] == 'f' && t[50] == '3' && t[51] == 'q'
    requires |c| == 6 && c[0] == 'c' && c[1] == 'c' && c[2] == 'f' && c[3] == 'm' && c[4] == 'v' &&
             c[5] == '3'
    ensures ("bc" + "1" + [Bech32.Charset[0]] + t + c)[48] == 'v' &&
            ("bc" + "1" + [Bech32.Charset[0]] + t + c)[49] == 'p' &&
            ("bc" + "1" + [Bech32.Charset[0]] + t + c)[50] == 'y' &&
            ("bc" + "1" + [Bech32.Charset[0]] + t + c)[51] == 's' &&
            ("bc" + "1" + [Bech32.Charset[0]] + t + c)[52] == 'x' &&
            ("bc" + "1" + [Bech32.Charset[0]] + t + c)[53] == 'f' &&
            ("bc" + "1" + [Bech32.Charset[0]] + t + c)[54] == '3' &&
            ("bc" + "1" + [Bech32.Charset[0]] + t + c)[55] == 'q' &&
            ("bc" + "1" + [Bech32.Charset[0]] + t + c)[56] == 'c' &&
            ("bc" + "1" + [Bech32.Charset[0]] + t + c)[57] == 'c' &&
            ("bc" + "1" + [Bech32.Charset[0]] + t + c)[58] == 'f' &&
            ("bc" + "1" + [Bech32.Charset[0]] + t + c)[59] == 'm' &&
            ("bc" + "1" + [Bech32.Charset[0]] + t + c)[60] == 'v' &&
            ("bc" + "1" + [Bech32.Charset[0]] + t + c)[61] == '3'
  {
  }

  lemma MainnetP2wshLiteral()
    ensures "bc1qrp33g0q5c5txsp9arysrx4k6zdk" + "fs4nce4xj0gdcccefvpysxf3qccfmv3" == "bc1qrp33g0q5c5txsp9arysrx4k6zdkfs4nce4xj0gdcccefvpysxf3qccfmv3"
  {}

  lemma MainnetP2wshGlue(e: string)
    requires |e| == 62 && e[0] == 'b' && e[1] == 'c' && e[2] == '1' && e[3] == 'q' &&
             e[4] == 'r' && e[5] == 'p' && e[6] == '3' && e[7] == '3' && e[8] == 'g' &&
             e[9] == '0' && e[10] == 'q' && e[11] == '5' && e[12] == 'c' && e[13] == '5' &&
             e[14] == 't' && e[15] == 'x' && e[16] == 's' && e[17] == 'p' && e[18] == '9' &&
             e[19] == 'a' && e[20] == 'r' && e[21] == 'y' && e[22] == 's' && e[23] == 'r' &&
             e[24] == 'x' && e[25] == '4' && e[26] == 'k' && e[27] == '6' && e[28] == 'z' &&
             e[29] == 'd' && e[30] == 'k' && e[31] == 'f' && e[32] == 's' && e[33] == '4' &&
             e[34] == 'n' && e[35] == 'c' && e[36] == 'e' && e[37] == '4' && e[38] == 'x' &&
             e[39] == 'j' && e[40] == '0' && e[41] == 'g' && e[42] == 'd' && e[43] == 'c' &&
             e[44] == 'c' && e[45] == 'c' && e[46] == 'e' && e[47] == 'f' && e[48] == 'v' &&
             e[49] == 'p' && e[50] == 'y' && e[51] == 's' && e[52] == 'x' && e[53] == 'f' &&
             e[54] == '3' && e[55] == 'q' && e[56] == 'c' && e[57] == 'c' && e[58] == 'f' &&
             e[59] == 'm' && e[60] == 'v' && e[61] == '3'
    ensures e == "bc1qrp33g0q5c5txsp9arysrx4k6zdkfs4nce4xj0gdcccefvpysxf3qccfmv3"
  {
    MainnetP2wshLiteral();
    assert e == "bc1qrp33g0q5c5txsp9arysrx4k6zdk" + "fs4nce4xj0gdcccefvpysxf3qccfmv3";
  }

  lemma MainnetP2wshAssemble(t: string, c: string)
    requires |t| == 52 && t[0] == 'r' && t[1] == 'p' && t[2] == '3' && t[3] == '3' &&
             t[4] == 'g' && t[5] == '0' && t[6] == 'q' && t[7] == '5' && t[8] == 'c' &&
             t[9] == '5' && t[10] == 't' && t[11] == 'x' && t[12] == 's' && t[13] == 'p' &&
             t[14] == '9' && t[15] == 'a' && t[16] == 'r' && t[17] == 'y' && t[18] == 's' &&
             t[19] == 'r' && t[20] == 'x' && t[21] == '4' && t[22] == 'k' && t[23] == '6' &&
             t[24] == 'z' && t[25] == 'd' && t[26] == 'k' && t[27] == 'f' && t[28] == 's' &&
             t[29] == '4' && t[30] == 'n' && t[31] == 'c' && t[32] == 'e' && t[33] == '4' &&
             t[34] == 'x' && t[35] == 'j' && t[36] == '0' && t[37] == 'g' && t[38] == 'd' &&
             t[39] == 'c' && t[40] == 'c' && t[41] == 'c' && t[42] == 'e' && t[43] == 'f' &&
             t[44] == 'v' && t[45] == 'p' && t[46] == 'y' && t[47] == 's' && t[48] == 'x' &&
             t[49] == 'f' && t[50] == '3' && t[51] == 'q'
    requires |c| == 6 && c[0] == 'c' && c[1] == 'c' && c[2] == 'f' && c[3] == 'm' && c[4] == 'v' &&
             c[5] == '3'
    ensures "bc" + "1" + [Bech32.Charset[0]] + t + c == "bc1qrp33g0q5c5txsp9arysrx4k6zdkfs4nce4xj0gdcccefvpysxf3qccfmv3"
  {
    MainnetP2wshAssemble0(t, c);
    MainnetP2wshAssemble1(t, c);
    MainnetP2wshAssemble2(t, c);
    MainnetP2wshAssemble3(t, c);
    MainnetP2wshGlue("bc" + "1" + [Bech32.Charset[0]] + t + c);
  }

  lemma MainnetP2wshProgramChars(ws: seq<Bech32.u5>)
    requires |ws| == 52 && ws[0] == 3 && ws[1] == 1 && ws[2] == 17 && ws[3] == 17 && ws[4] == 8 &&
             ws[5] == 15 && ws[6] == 0 && ws[7] == 20 && ws[8] == 24 && ws[9] == 20 &&
             ws[10] == 11 && ws[11] == 6 && ws[12] == 16 && ws[13] == 1 && ws[14] == 5 &&
             ws[15] == 29 && ws[16] == 3 && ws[17] == 4 && ws[18] == 16 && ws[19] == 3 &&
             ws[20] == 6 && ws[21] == 21 && ws[22] == 22 && ws[23] == 26 && ws[24] == 2 &&
             ws[25] == 13 && ws[26] == 22 && ws[27] == 9 && ws[28] == 16 && ws[29] == 21 &&
             ws[30] == 19 && ws[31] == 24 && ws[32] == 25 && ws[33] == 21 && ws[34] == 6 &&
             ws[35] == 18 && ws[36] == 15 && ws[37] == 8 && ws[38] == 13 && ws[39] == 24 &&
             ws[40] == 24 && ws[41] == 24 && ws[42] == 25 && ws[43] == 9 && ws[44] == 12 &&
             ws[45] == 1 && ws[46] == 4 && ws[47] == 16 && ws[48] == 6 && ws[49] == 9 &&
             ws[50] == 17 && ws[51] == 0
    ensures |Bech32.ToChars(ws)| == 52
    ensures Bech32.ToChars(ws)[0] == 'r' && Bech32.ToChars(ws)[1] == 'p' &&
            Bech32.ToChars(ws)[2] == '3' && Bech32.ToChars(ws)[3] == '3' &&
            Bech32.ToChars(ws)[4] == 'g' && Bech32.ToChars(ws)[5] == '0' &&
            Bech32.ToChars(ws)[6] == 'q' && Bech32.ToChars(ws)[7] == '5' &&
            Bech32.ToChars(ws)[8] == 'c' && Bech32.ToChars(ws)[9] == '5' &&
            Bech32.ToChars(ws)[10] == 't' && Bech32.ToChars(ws)[11] == 'x' &&
            Bech32.ToChars(ws)[12] == 's' && Bech32.ToChars(ws)[13] == 'p' &&
            Bech32.ToChars(ws)[14] == '9' && Bech32.ToChars(ws)[15] == 'a' &&
            Bech32.ToChars(ws)[16] == 'r' && Bech32.ToChars(ws)[17] == 'y' &&
            Bech32.ToChars(ws)[18] == 's' && Bech32.ToChars(ws)[19] == 'r' &&
            Bech32.ToChars(ws)[20] == 'x' && Bech32.ToChars(ws)[21] == '4' &&
            Bech32.ToChars(ws)[22] == 'k' && Bech32.ToChars(ws)[23] == '6' &&
            Bech32.ToChars(ws)[24] == 'z' && Bech32.ToChars(ws)[25] == 'd' &&
            Bech32.ToChars(ws)[26] == 'k' && Bech32.ToChars(ws)[27] == 'f' &&
            Bech32.ToChars(ws)[28] == 's' && Bech32.ToChars(ws)[29] == '4' &&
            Bech32.ToChars(ws)[30] == 'n' && Bech32.ToChars(ws)[31] == 'c' &&
            Bech32.ToChars(ws)[32] == 'e' && Bech32.ToChars(ws)[33] == '4' &&
            Bech32.ToChars(ws)[34] == 'x' && Bech32.ToChars(ws)[35] == 'j' &&
            Bech32.ToChars(ws)[36] == '0' && Bech32.ToChars(ws)[37] == 'g' &&
            Bech32.ToChars(ws)[38] == 'd' && Bech32.ToChars(ws)[39] == 'c' &&
            Bech32.ToChars(ws)[40] == 'c' && Bech32.ToChars(ws)[41] == 'c' &&
            Bech32.ToChars(ws)[42] == 'e' && Bech32.ToChars(ws)[43] == 'f' &&
            Bech32.ToChars(ws)[44] == 'v' && Bech32.ToChars(ws)[45] == 'p' &&
            Bech32.ToChars(ws)[46] == 'y' && Bech32.ToChars(ws)[47] == 's' &&
            Bech32.ToChars(ws)[48] == 'x' && Bech32.ToChars(ws)[49] == 'f' &&
            Bech32.ToChars(ws)[50] == '3' && Bech32.ToChars(ws)[51] == 'q'
  {
    MainnetP2wshChars0(ws);
    MainnetP2wshChars1(ws);
    MainnetP2wshChars2(ws);
    MainnetP2wshChars3(ws);
    MainnetP2wshChars4(ws);
    MainnetP2wshChars5(ws);
    MainnetP2wshChars6(ws);
    MainnetP2wshChars7(ws);
    MainnetP2wshChars8(ws);
    MainnetP2wshChars9(ws);
    MainnetP2wshChars10(ws);
    MainnetP2wshChars11(ws);
    MainnetP2wshChars12(ws);
  }

  lemma MainnetP2wshWordChars(p: seq<byte>)
    requires WshProgram(p)
    ensures |Bech32.ToChars(Segwit.ToWords(p))| == 52
    ensures Bech32.ToChars(Segwit.ToWords(p))[0] == 'r' &&
            Bech32.ToChars(Segwit.ToWords(p))[1] == 'p' &&
            Bech32.ToChars(Segwit.ToWords(p))[2] == '3' &&
            Bech32.ToChars(Segwit.ToWords(p))[3] == '3' &&
            Bech32.ToChars(Segwit.ToWords(p))[4] == 'g' &&
            Bech32.ToChars(Segwit.ToWords(p))[5] == '0' &&
            Bech32.ToChars(Segwit.ToWords(p))[6] == 'q' &&
            Bech32.ToChars(Segwit.ToWords(p))[7] == '5' &&
            Bech32.ToChars(Segwit.ToWords(p))[8] == 'c' &&
            Bech32.ToChars(Segwit.ToWords(p))[9] == '5' &&
            Bech32.ToChars(Segwit.ToWords(p))[10] == 't' &&
            Bech32.ToChars(Segwit.ToWords(p))[11] == 'x' &&
            Bech32.ToChars(Segwit.ToWords(p))[12] == 's' &&
            Bech32.ToChars(Segwit.ToWords(p))[13] == 'p' &&
            Bech32.ToChars(Segwit.ToWords(p))[14] == '9' &&
            Bech32.ToChars(Segwit.ToWords(p))[15] == 'a' &&
            Bech32.ToChars(Segwit.ToWords(p))[16] == 'r' &&
            Bech32.ToChars(Segwit.ToWords(p))[17] == 'y' &&
            Bech32.ToChars(Segwit.ToWords(p))[18] == 's' &&
            Bech32.ToChars(Segwit.ToWords(p))[19] == 'r' &&
            Bech32.ToChars(Segwit.ToWords(p))[20] == 'x' &&
            Bech32.ToChars(Segwit.ToWords(p))[21] == '4' &&
            Bech32.ToChars(Segwit.ToWords(p))[22] == 'k' &&
            Bech32.ToChars(Segwit.ToWords(p))[23] == '6' &&
            Bech32.ToChars(Segwit.ToWords(p))[24] == 'z' &&
            Bech32.ToChars(Segwit.ToWords(p))[25] == 'd' &&
            Bech32.ToChars(Segwit.ToWords(p))[26] == 'k' &&
            Bech32.ToChars(Segwit.ToWords(p))[27] == 'f' &&
            Bech32.ToChars(Segwit.ToWords(p))[28] == 's' &&
            Bech32.ToChars(Segwit.ToWords(p))[29] == '4' &&
            Bech32.ToChars(Segwit.ToWords(p))[30] == 'n' &&
            Bech32.ToChars(Segwit.ToWords(p))[31] == 'c' &&
            Bech32.ToChars(Segwit.ToWords(p))[32] == 'e' &&
            Bech32.ToChars(Segwit.ToWords(p))[33] == '4' &&
            Bech32.ToChars(Segwit.ToWords(p))[34] == 'x' &&
            Bech32.ToChars(Segwit.ToWords(p))[35] == 'j' &&
            Bech32.ToChars(Segwit.ToWords(p))[36] == '0' &&
            Bech32.ToChars(Segwit.ToWords(p))[37] == 'g' &&
            Bech32.ToChars(Segwit.ToWords(p))[38] == 'd' &&
            Bech32.ToChars(Segwit.ToWords(p))[39] == 'c' &&
            Bech32.ToChars(Segwit.ToWords(p))[40] == 'c' &&
            Bech32.ToChars(Segwit.ToWords(p))[41] == 'c' &&
            Bech32.ToChars(Segwit.ToWords(p))[42] == 'e' &&
            Bech32.ToChars(Segwit.ToWords(p))[43] == 'f' &&
            Bech32.ToChars(Segwit.ToWords(p))[44] == 'v' &&
            Bech32.ToChars(Segwit.ToWords(p))[45] == 'p' &&
            Bech32.ToChars(Segwit.ToWords(p))[46] == 'y' &&
            Bech32.ToChars(Segwit.ToWords(p))[47] == 's' &&
            Bech32.ToChars(Segwit.ToWords(p))[48] == 'x' &&
            Bech32.ToChars(Segwit.ToWords(p))[49] == 'f' &&
            Bech32.ToChars(Segwit.ToWords(p))[50] == '3' &&
            Bech32.ToChars(Segwit.ToWords(p))[51] == 'q'
  {
    WshWordsAt0(p);
    WshWordsAt1(p);
    WshWordsAt2(p);
    WshWordsAt3(p);
    WshWordsAt4(p);
    WshWordsAt5(p);
    WshWordsAt6(p);
    WshWordsAt7(p);
    WshWordsAt8(p);
    WshWordsAt9(p);
    WshWordsAt10(p);
    WshWordsAt11(p);
    WshWordsAt12(p);
    MainnetP2wshProgramChars(Segwit.ToWords(p));
  }

  /** The text of the address, assembled from its characters. */
  lemma MainnetP2wshText(p: seq<byte>)
    requires WshProgram(p)
    ensures Segwit.Encode("bc", 0, p) == "bc1qrp33g0q5c5txsp9arysrx4k6zdkfs4nce4xj0gdcccefvpysxf3qccfmv3"
  {
    var ws := Segwit.ToWords(p);
    var cs := Bech32.CreateChecksum("bc", [0] + ws);
    EncodeParts("bc", 0, p);
    MainnetP2wshWordChars(p);
    MainnetP2wshChecksum(p);
    MainnetP2wshChecksumChars(cs);
    MainnetP2wshAssemble(Bech32.ToChars(ws), Bech32.ToChars(cs));
  }

  /** test/address-test.js:91-100. */
  lemma MainnetP2wsh(hash: Base58Check.Hasher, p: seq<byte>)
    requires WshProgram(p)
    ensures Address.FromWitnessScripthash(p) == Ok(Address.Address(Address.Witness(0), p, Networks.Main))
    ensures Address.ToString(hash, Address.Address(Address.Witness(0), p, Networks.Main)) == "bc1qrp33g0q5c5txsp9arysrx4k6zdkfs4nce4xj0gdcccefvpysxf3qccfmv3"
  {
    MainnetP2wshText(p);
  }

  lemma TestnetP2wpkhResidue0(p: seq<byte>)
    requires WpkhProgram(p) && |Segwit.ToWords(p)| == 32 && Residue(1029310450, Segwit.ToWords(p), 0) == 1029310450
    ensures Residue(1029310450, Segwit.ToWords(p), 4) == 25521657
  {
    WpkhWordsAt0(p);
    var ws := Segwit.ToWords(p);
    ResidueNext(1029310450, ws, 0, 1029310450, 14, 82262199);
    ResidueNext(1029310450, ws, 1, 82262199, 20, 985110681);
    ResidueNext(1029310450, ws, 2, 985110681, 15, 611191817);
    ResidueNext(1029310450, ws, 3, 611191817, 7, 25521657);
  }

  lemma TestnetP2wpkhResidue1(p: seq<byte>)
    requires WpkhProgram(p) && |Segwit.ToWords(p)| == 32 && Residue(1029310450, Segwit.ToWords(p), 4) == 25521657
    ensures Residue(1029310450, Segwit.ToWords(p), 8) == 481762613
  {
    WpkhWordsAt1(p);
    var ws := Segwit.ToWords(p);
    ResidueNext(1029310450, ws, 4, 25521657, 13, 816693037);
    ResidueNext(1029310450, ws, 5, 816693037, 26, 48346324);
    ResidueNext(1029310450, ws, 6, 48346324, 0, 660393266);
    ResidueNext(1029310450, ws, 7, 660393266, 25, 481762613);
  }

  lemma TestnetP2wpkhResidue2(p: seq<byte>)
    requires WpkhProgram(p) && |Segwit.ToWords(p)| == 32 && Residue(1029310450, Segwit.ToWords(p), 8) == 481762613
    ensures Residue(1029310450, Segwit.ToWords(p), 12) == 472640495
  {
    WpkhWordsAt2(p);
    var ws := Segwit.ToWords(p);
    ResidueNext(1029310450, ws, 8, 481762613, 18, 324010744);
    ResidueNext(1029310450, ws, 9, 324010744, 6, 740834153);
    ResidueNext(1029310450, ws, 10, 740834153, 11, 400726031);
    ResidueNext(1029310450, ws, 11, 400726031, 13, 472640495);
  }

  lemma TestnetP2wpkhResidue3(p: seq<byte>)
    requires WpkhProgram(p) && |Segwit.ToWords(p)| == 32 && Residue(1029310450, Segwit.ToWords(p), 12) == 472640495
    ensures Residue(1029310450, Segwit.ToWords(p), 16) == 861354579
  {
    WpkhWordsAt3(p);
    var ws := Segwit.ToWords(p);
    ResidueNext(1029310450, ws, 12, 472640495, 8, 13556130);
    ResidueNext(1029310450, ws, 13, 13556130, 21, 433796181);
    ResidueNext(1029310450, ws, 14, 433796181, 4, 411410563);
    ResidueNext(1029310450, ws, 15, 411410563, 20, 861354579);
  }

  lemma TestnetP2wpkhResidue4(p: seq<byte>)
    requires WpkhProgram(p) && |Segwit.ToWords(p)| == 32 && Residue(1029310450, Segwit.ToWords(p), 16) == 861354579
    ensures Residue(1029310450, Segwit.ToWords(p), 20) == 169568703
  {
    WpkhWordsAt4(p);
    var ws := Segwit.ToWords(p);
    ResidueNext(1029310450, ws, 16, 861354579, 3, 115035327);
    ResidueNext(1029310450, ws, 17, 115035327, 17, 106122798);
    ResidueNext(1029310450, ws, 18, 106122798, 2, 391322653);
    ResidueNext(1029310450, ws, 19, 391322653, 29, 169568703);
  }

  lemma TestnetP2wpkhResidue5(p: seq<byte>)
    requires WpkhProgram(p) && |Segwit.ToWords(p)| == 32 && Residue(1029310450, Segwit.ToWords(p), 20) == 169568703
    ensures Residue(1029310450, Segwit.ToWords(p), 24) == 991647399
  {
    WpkhWordsAt5(p);
    var ws := Segwit.ToWords(p);
    ResidueNext(1029310450, ws, 20, 169568703, 3, 648444331);
    ResidueNext(1029310450, ws, 21, 648444331, 12, 601984512);
    ResidueNext(1029310450, ws, 22, 601984512, 29, 760214812);
    ResidueNext(1029310450, ws, 23, 760214812, 3, 991647399);
  }

  lemma TestnetP2wpkhResidue6(p: seq<byte>)
    requires WpkhProgram(p) && |Segwit.ToWords(p)| == 32 && Residue(1029310450, Segwit.ToWords(p), 24) == 991647399
    ensures Residue(1029310450, Segwit.ToWords(p), 28) == 949299907
  {
    WpkhWordsAt6(p);
    var ws := Segwit.ToWords(p);
    ResidueNext(1029310450, ws, 24, 991647399, 4, 301452226);
    ResidueNext(1029310450, ws, 25, 301452226, 15, 62606226);
    ResidueNext(1029310450, ws, 26, 62606226, 24, 201532906);
    ResidueNext(1029310450, ws, 27, 201532906, 20, 949299907);
  }

  lemma TestnetP2wpkhResidue7(p: seq<byte>)
    requires WpkhProgram(p) && |Segwit.ToWords(p)| == 32 && Residue(1029310450, Segwit.ToWords(p), 28) == 949299907
    ensures Residue(1029310450, Segwit.ToWords(p), 32) == 453602133
  {
    WpkhWordsAt7(p);
    var ws := Segwit.ToWords(p);
    ResidueNext(1029310450, ws, 28, 949299907, 6, 458363122);
    ResidueNext(1029310450, ws, 29, 458363122, 14, 852190171);
    ResidueNext(1029310450, ws, 30, 852190171, 30, 894467490);
    ResidueNext(1029310450, ws, 31, 894467490, 22, 453602133);
  }

  /** The residue over the program's words, after the human-readable part and the version. */
  lemma TestnetP2wpkhWordsResidue(p: seq<byte>)
    requires WpkhProgram(p)
    ensures Bech32.PolymodFrom(1029310450, Segwit.ToWords(p)) == 453602133
  {
    WpkhWordsAt0(p);
    var ws := Segwit.ToWords(p);
    TestnetP2wpkhResidue0(p);
    TestnetP2wpkhResidue1(p);
    TestnetP2wpkhResidue2(p);
    TestnetP2wpkhResidue3(p);
    TestnetP2wpkhResidue4(p);
    TestnetP2wpkhResidue5(p);
    TestnetP2wpkhResidue6(p);
    TestnetP2wpkhResidue7(p);
    ResidueAll(1029310450, ws);
  }

  /** The residue of the checksum input: expanded "tb", the version, the program's words, six zeros. */
  lemma TestnetP2wpkhResidue(p: seq<byte>)
    requires WpkhProgram(p)
    ensures Bech32.Polymod(Bech32.HrpExpand("tb") + ([0] + Segwit.ToWords(p)) + Bech32.ZeroWords(6)) == 202967559
  {
    var h, ws := Bech32.HrpExpand("tb"), Segwit.ToWords(p);
    HrpResidueTB();
    TestnetP2wpkhWordsResidue(p);
    Bech32.PolymodAppend(1, h + ([0] + ws), Bech32.ZeroWords(6));
    Bech32.PolymodAppend(1, h, [0] + ws);
    assert ([0] + ws)[1..] == ws;
    Bech32.Unfold1(36799106, [0] + ws);
    Bech32.Unfold6(453602133, Bech32.ZeroWords(6));
  }

  lemma TestnetP2wpkhChecksum(p: seq<byte>)
    requires WpkhProgram(p)
    ensures Bech32.CreateChecksum("tb", [0] + Segwit.ToWords(p)) == [6, 1, 18, 2, 16, 6]
  {
    TestnetP2wpkhResidue(p);
  }

  lemma TestnetP2wpkhChars0(ws: seq<Bech32.u5>)
    requires |ws| == 32 && ws[0] == 14 && ws[1] == 20 && ws[2] == 15 && ws[3] == 7
    ensures Bech32.ToChars(ws)[0] == 'w' && Bech32.ToChars(ws)[1] == '5' &&
            Bech32.ToChars(ws)[2] == '0' && Bech32.ToChars(ws)[3] == '8'
  {
    assert Bech32.Charset[14] == 'w'; assert Bech32.Charset[20] == '5';
    assert Bech32.Charset[15] == '0'; assert Bech32.Charset[7] == '8';
  }

  lemma TestnetP2wpkhChars1(ws: seq<Bech32.u5>)
    requires |ws| == 32 && ws[4] == 13 && ws[5] == 26 && ws[6] == 0 && ws[7] == 25
    ensures Bech32.ToChars(ws)[4] == 'd' && Bech32.ToChars(ws)[5] == '6' &&
            Bech32.ToChars(ws)[6] == 'q' && Bech32.ToChars(ws)[7] == 'e'
  {
    assert Bech32.Charset[13] == 'd'; assert Bech32.Charset[26] == '6';
    assert Bech32.Charset[0] == 'q'; assert Bech32.Charset[25] == 'e';
  }

  lemma TestnetP2wpkhChars2(ws: seq<Bech32.u5>)
    requires |ws| == 32 && ws[8] == 18 && ws[9] == 6 && ws[10] == 11 && ws[11] == 13
    ensures Bech32.ToChars(ws)[8] == 'j' && Bech32.ToChars(ws)[9] == 'x' &&
            Bech32.ToChars(ws)[10] == 't' && Bech32.ToChars(ws)[11] == 'd'
  {
    assert Bech32.Charset[18] == 'j'; assert Bech32.Charset[6] == 'x';
    assert Bech32.Charset[11] == 't'; assert Bech32.Charset[13] == 'd';
  }

  lemma TestnetP2wpkhChars3(ws: seq<Bech32.u5>)
    requires |ws| == 32 && ws[12] == 8 && ws[13] == 21 && ws[14] == 4 && ws[15] == 20
    ensures Bech32.ToChars(ws)[12] == 'g' && Bech32.ToChars(ws)[13] == '4' &&
            Bech32.ToChars(ws)[14] == 'y' && Bech32.ToChars(ws)[15] == '5'
  {
    assert Bech32.Charset[8] == 'g'; assert Bech32.Charset[21] == '4';
    assert Bech32.Charset[4] == 'y'; assert Bech32.Charset[20] == '5';
  }

  lemma TestnetP2wpkhChars4(ws: seq<Bech32.u5>)
    requires |ws| == 32 && ws[16] == 3 && ws[17] == 17 && ws[18] == 2 && ws[19] == 29
    ensures Bech32.ToChars(ws)[16] == 'r' && Bech32.ToChars(ws)[17] == '3' &&
            Bech32.ToChars(ws)[18] == 'z' && Bech32.ToChars(ws)[19] == 'a'
  {
    assert Bech32.Charset[3] == 'r'; assert Bech32.Charset[17] == '3';
    assert Bech32.Charset[2] == 'z'; assert Bech32.Charset[29] == 'a';
  }

  lemma TestnetP2wpkhChars5(ws: seq<Bech32.u5>)
    requires |ws| == 32 && ws[20] == 3 && ws[21] == 12 && ws[22] == 29 && ws[23] == 3
    ensures Bech32.ToChars(ws)[20] == 'r' && Bech32.ToChars(ws)[21] == 'v' &&
            Bech32.ToChars(ws)[22] == 'a' && Bech32.ToChars(ws)[23] == 'r'
  {
    assert Bech32.Charset[3] == 'r'; assert Bech32.Charset[12] == 'v';
    assert Bech32.Charset[29] == 'a'; assert Bech32.Charset[3] == 'r';
  }

  lemma TestnetP2wpkhChars6(ws: seq<Bech32.u5>)
    requires |ws| == 32 && ws[24] == 4 && ws[25] == 15 && ws[26] == 24 && ws[27] == 20
    ensures Bech32.ToChars(ws)[24] == 'y' && Bech32.ToChars(ws)[25] == '0' &&
            Bech32.ToChars(ws)[26] == 'c' && Bech32.ToChars(ws)[27] == '5'
  {
    assert Bech32.Charset[4] == 'y'; assert Bech32.Charset[15] == '0';
    assert Bech32.Charset[24] == 'c'; assert Bech32.Charset[20] == '5';
  }

  lemma TestnetP2wpkhChars7(ws: seq<Bech32.u5>)
    requires |ws| == 32 && ws[28] == 6 && ws[29] == 14 && ws[30] == 30 && ws[31] == 22
    ensures Bech32.ToChars(ws)[28] == 'x' && Bech32.ToChars(ws)[29] == 'w' &&
            Bech32.ToChars(ws)[30] == '7' && Bech32.ToChars(ws)[31] == 'k'
  {
    assert Bech32.Charset[6] == 'x'; assert Bech32.Charset[14] == 'w';
    assert Bech32.Charset[30] == '7'; assert Bech32.Charset[22] == 'k';
  }

  lemma TestnetP2wpkhChecksumChars(cs: seq<Bech32.u5>)
    requires cs == [6, 1, 18, 2, 16, 6]
    ensures Bech32.ToChars(cs)[0] == 'x' && Bech32.ToChars(cs)[1] == 'p' &&
            Bech32.ToChars(cs)[2] == 'j' && Bech32.ToChars(cs)[3] == 'z' &&
            Bech32.ToChars(cs)[4] == 's' && Bech32.ToChars(cs)[5] == 'x'
  {
    assert Bech32.Charset[6] == 'x'; assert Bech32.Charset[1] == 'p';
    assert Bech32.Charset[18] == 'j'; assert Bech32.Charset[2] == 'z';
    assert Bech32.Charset[16] == 's'; assert Bech32.Charset[6] == 'x';
  }

  lemma TestnetP2wpkhAssemble0(t: string, c: string)
    requires |t| == 32 && t[0] == 'w' && t[1] == '5' && t[2] == '0' && t[3] == '8' &&
             t[4] == 'd' && t[5] == '6' && t[6] == 'q' && t[7] == 'e' && t[8] == 'j' &&
             t[9] == 'x' && t[10] == 't' && t[11] == 'd'
    requires |c| == 6
    ensures ("tb" + "1" + [Bech32.Charset[0]] + t + c)[0] == 't' &&
            ("tb" + "1" + [Bech32.Charset[0]] + t + c)[1] == 'b' &&
            ("tb" + "1" + [Bech32.Charset[0]] + t + c)[2] == '1' &&
            ("tb" + "1" + [Bech32.Charset[0]] + t + c)[3] == 'q' &&
            ("tb" + "1" + [Bech32.Charset[0]] + t + c)[4] == 'w' &&
            ("tb" + "1" + [Bech32.Charset[0]] + t + c)[5] == '5' &&
            ("tb" + "1" + [Bech32.Charset[0]] + t + c)[6] == '0' &&
            ("tb" + "1" + [Bech32.Charset[0]] + t + c)[7] == '8' &&
            ("tb" + "1" + [Bech32.Charset[0]] + t + c)[8] == 'd' &&
            ("tb" + "1" + [Bech32.Charset[0]] + t + c)[9] == '6' &&
            ("tb" + "1" + [Bech32.Charset[0]] + t + c)[10] == 'q' &&
            ("tb" + "1" + [Bech32.Charset[0]] + t + c)[11] == 'e' &&
            ("tb" + "1" + [Bech32.Charset[0]] + t + c)[12] == 'j' &&
            ("tb" + "1" + [Bech32.Charset[0]] + t + c)[13] == 'x' &&
            ("tb" + "1" + [Bech32.Charset[0]] + t + c)[14] == 't' &&
            ("tb" + "1" + [Bech32.Charset[0]] + t + c)[15] == 'd'
  {
    assert Bech32.Charset[0] == 'q';
  }

  lemma TestnetP2wpkhAssemble1(t: string, c: string)
    requires |t| == 32 && t[12] == 'g' && t[13] == '4' && t[14] == 'y' && t[15] == '5' &&
             t[16] == 'r' && t[17] == '3' && t[18] == 'z' && t[19] == 'a' && t[20] == 'r' &&
             t[21] == 'v' && t[22] == 'a' && t[23] == 'r' && t[24] == 'y' && t[25] == '0' &&
             t[26] == 'c' && t[27] == '5'
    requires |c| == 6
    ensures ("tb" + "1" + [Bech32.Charset[0]] + t + c)[16] == 'g' &&
            ("tb" + "1" + [Bech32.Charset[0]] + t + c)[17] == '4' &&
            ("tb" + "1" + [Bech32.Charset[0]] + t + c)[18] == 'y' &&
            ("tb" + "1" + [Bech32.Charset[0]] + t + c)[19] == '5' &&
            ("tb" + "1" + [Bech32.Charset[0]] + t + c)[20] == 'r' &&
            ("tb" + "1" + [Bech32.Charset[0]] + t + c)[21] == '3' &&
            ("tb" + "1" + [Bech32.Charset[0]] + t + c)[22] == 'z' &&
            ("tb" + "1" + [Bech32.Charset[0]] + t + c)[23] == 'a' &&
            ("tb" + "1" + [Bech32.Charset[0]] + t + c)[24] == 'r' &&
            ("tb" + "1" + [Bech32.Charset[0]] + t + c)[25] == 'v' &&
            ("tb" + "1" + [Bech32.Charset[0]] + t + c)[26] == 'a' &&
            ("tb" + "1" + [Bech32.Charset[0]] + t + c)[27] == 'r' &&
            ("tb" + "1" + [Bech32.Charset[0]] + t + c)[28] == 'y' &&
            ("tb" + "1" + [Bech32.Charset[0]] + t + c)[29] == '0' &&
            ("tb" + "1" + [Bech32.Charset[0]] + t + c)[30] == 'c' &&
            ("tb" + "1" + [Bech32.Charset[0]] + t + c)[31] == '5'
  {
  }

  lemma TestnetP2wpkhAssemble2(t: string, c: string)
    requires |t| == 32 && t[28] == 'x' && t[29] == 'w' && t[30] == '7' && t[31] == 'k'
    requires |c| == 6 && c[0] == 'x' && c[1] == 'p' && c[2] == 'j' && c[3] == 'z' && c[4] == 's' &&
             c[5] == 'x'
    ensures ("tb" + "1" + [Bech32.Charset[0]] + t + c)[32] == 'x' &&
            ("tb" + "1" + [Bech32.Charset[0]] + t + c)[33] == 'w' &&
            ("tb" + "1" + [Bech32.Charset[0]] + t + c)[34] == '7' &&
            ("tb" + "1" + [Bech32.Charset[0]] + t + c)[35] == 'k' &&
            ("tb" + "1" + [Bech32.Charset[0]] + t + c)[36] == 'x' &&
            ("tb" + "1" + [Bech32.Charset[0]] + t + c)[37] == 'p' &&
            ("tb" + "1" + [Bech32.Charset[0]] + t + c)[38] == 'j' &&
            ("tb" + "1" + [Bech32.Charset[0]] + t + c)[39] == 'z' &&
            ("tb" + "1" + [Bech32.Charset[0]] + t + c)[40] == 's' &&
            ("tb" + "1" + [Bech32.Charset[0]] + t + c)[41] == 'x'
  {
  }

  lemma TestnetP2wpkhLiteral()
    ensures "tb1qw508d6qejxtdg4y5r" + "3zarvary0c5xw7kxpjzsx" == "tb1qw508d6qejxtdg4y5r3zarvary0c5xw7kxpjzsx"
  {}

  lemma TestnetP2wpkhGlue(e: string)
    requires |e| == 42 && e[0] == 't' && e[1] == 'b' && e[2] == '1' && e[3] == 'q' &&
             e[4] == 'w' && e[5] == '5' && e[6] == '0' && e[7] == '8' && e[8] == 'd' &&
             e[9] == '6' && e[10] == 'q' && e[11] == 'e' && e[12] == 'j' && e[13] == 'x' &&
             e[14] == 't' && e[15] == 'd' && e[16] == 'g' && e[17] == '4' && e[18] == 'y' &&
             e[19] == '5' && e[20] == 'r' && e[21] == '3' && e[22] == 'z' && e[23] == 'a' &&
             e[24] == 'r' && e[25] == 'v' && e[26] == 'a' && e[27] == 'r' && e[28] == 'y' &&
             e[29] == '0' && e[30] == 'c' && e[31] == '5' && e[32] == 'x' && e[33] == 'w' &&
             e[34] == '7' && e[35] == 'k' && e[36] == 'x' && e[37] == 'p' && e[38] == 'j' &&
             e[39] == 'z' && e[40] == 's' && e[41] == 'x'
    ensures e == "tb1qw508d6qejxtdg4y5r3zarvary0c5xw7kxpjzsx"
  {
    TestnetP2wpkhLiteral();
    assert e == "tb1qw508d6qejxtdg4y5r" + "3zarvary0c5xw7kxpjzsx";
  }

  lemma TestnetP2wpkhAssemble(t: string, c: string)
    requires |t| == 32 && t[0] == 'w' && t[1] == '5' && t[2] == '0' && t[3] == '8' &&
             t[4] == 'd' && t[5] == '6' && t[6] == 'q' && t[7] == 'e' && t[8] == 'j' &&
             t[9] == 'x' && t[10] == 't' && t[11] == 'd' && t[12] == 'g' && t[13] == '4' &&
             t[14] == 'y' && t[15] == '5' && t[16] == 'r' && t[17] == '3' && t[18] == 'z' &&
             t[19] == 'a' && t[20] == 'r' && t[21] == 'v' && t[22] == 'a' && t[23] == 'r' &&
             t[24] == 'y' && t[25] == '0' && t[26] == 'c' && t[27] == '5' && t[28] == 'x' &&
             t[29] == 'w' && t[30] == '7' && t[31] == 'k'
    requires |c| == 6 && c[0] == 'x' && c[1] == 'p' && c[2] == 'j' && c[3] == 'z' && c[4] == 's' &&
             c[5] == 'x'
    ensures "tb" + "1" + [Bech32.Charset[0]] + t + c == "tb1qw508d6qejxtdg4y5r3zarvary0c5xw7kxpjzsx"
  {
    TestnetP2wpkhAssemble0(t, c);
    TestnetP2wpkhAssemble1(t, c);
    TestnetP2wpkhAssemble2(t, c);
    TestnetP2wpkhGlue("tb" + "1" + [Bech32.Charset[0]] + t + c);
  }

  lemma TestnetP2wpkhProgramChars(ws: seq<Bech32.u5>)
    requires |ws| == 32 && ws[0] == 14 && ws[1] == 20 && ws[2] == 15 && ws[3] == 7 &&
             ws[4] == 13 && ws[5] == 26 && ws[6] == 0 && ws[7] == 25 && ws[8] == 18 &&
             ws[9] == 6 && ws[10] == 11 && ws[11] == 13 && ws[12] == 8 && ws[13] == 21 &&
             ws[14] == 4 && ws[15] == 20 && ws[16] == 3 && ws[17] == 17 && ws[18] == 2 &&
             ws[19] == 29 && ws[20] == 3 && ws[21] == 12 && ws[22] == 29 && ws[23] == 3 &&
             ws[24] == 4 && ws[25] == 15 && ws[26] == 24 && ws[27] == 20 && ws[28] == 6 &&
             ws[29] == 14 && ws[30] == 30 && ws[31] == 22
    ensures |Bech32.ToChars(ws)| == 32
    ensures Bech32.ToChars(ws)[0] == 'w' && Bech32.ToChars(ws)[1] == '5' &&
            Bech32.ToChars(ws)[2] == '0' && Bech32.ToChars(ws)[3] == '8' &&
            Bech32.ToChars(ws)[4] == 'd' && Bech32.ToChars(ws)[5] == '6' &&
            Bech32.ToChars(ws)[6] == 'q' && Bech32.ToChars(ws)[7] == 'e' &&
            Bech32.ToChars(ws)[8] == 'j' && Bech32.ToChars(ws)[9] == 'x' &&
            Bech32.ToChars(ws)[10] == 't' && Bech32.ToChars(ws)[11] == 'd' &&
            Bech32.ToChars(ws)[12] == 'g' && Bech32.ToChars(ws)[13] == '4' &&
            Bech32.ToChars(ws)[14] == 'y' && Bech32.ToChars(ws)[15] == '5' &&
            Bech32.ToChars(ws)[16] == 'r' && Bech32.ToChars(ws)[17] == '3' &&
            Bech32.ToChars(ws)[18] == 'z' && Bech32.ToChars(ws)[19] == 'a' &&
            Bech32.ToChars(ws)[20] == 'r' && Bech32.ToChars(ws)[21] == 'v' &&
            Bech32.ToChars(ws)[22] == 'a' && Bech32.ToChars(ws)[23] == 'r' &&
            Bech32.ToChars(ws)[24] == 'y' && Bech32.ToChars(ws)[25] == '0' &&
            Bech32.ToChars(ws)[26] == 'c' && Bech32.ToChars(ws)[27] == '5' &&
            Bech32.ToChars(ws)[28] == 'x' && Bech32.ToChars(ws)[29] == 'w' &&
            Bech32.ToChars(ws)[30] == '7' && Bech32.ToChars(ws)[31] == 'k'
  {
    TestnetP2wpkhChars0(ws);
    TestnetP2wpkhChars1(ws);
    TestnetP2wpkhChars2(ws);
    TestnetP2wpkhChars3(ws);
    TestnetP2wpkhChars4(ws);
    TestnetP2wpkhChars5(ws);
    TestnetP2wpkhChars6(ws);
    TestnetP2wpkhChars7(ws);
  }

  lemma TestnetP2wpkhWordChars(p: seq<byte>)
    requires WpkhProgram(p)
    ensures |Bech32.ToChars(Segwit.ToWords(p))| == 32
    ensures Bech32.ToChars(Segwit.ToWords(p))[0] == 'w' &&
            Bech32.ToChars(Segwit.ToWords(p))[1] == '5' &&
            Bech32.ToChars(Segwit.ToWords(p))[2] == '0' &&
            Bech32.ToChars(Segwit.ToWords(p))[3] == '8' &&
            Bech32.ToChars(Segwit.ToWords(p))[4] == 'd' &&
            Bech32.ToChars(Segwit.ToWords(p))[5] == '6' &&
            Bech32.ToChars(Segwit.ToWords(p))[6] == 'q' &&
            Bech32.ToChars(Segwit.ToWords(p))[7] == 'e' &&
            Bech32.ToChars(Segwit.ToWords(p))[8] == 'j' &&
            Bech32.ToChars(Segwit.ToWords(p))[9] == 'x' &&
            Bech32.ToChars(Segwit.ToWords(p))[10] == 't' &&
            Bech32.ToChars(Segwit.ToWords(p))[11] == 'd' &&
            Bech32.ToChars(Segwit.ToWords(p))[12] == 'g' &&
            Bech32.ToChars(Segwit.ToWords(p))[13] == '4' &&
            Bech32.ToChars(Segwit.ToWords(p))[14] == 'y' &&
            Bech32.ToChars(Segwit.ToWords(p))[15] == '5' &&
            Bech32.ToChars(Segwit.ToWords(p))[16] == 'r' &&
            Bech32.ToChars(Segwit.ToWords(p))[17] == '3' &&
            Bech32.ToChars(Segwit.ToWords(p))[18] == 'z' &&
            Bech32.ToChars(Segwit.ToWords(p))[19] == 'a' &&
            Bech32.ToChars(Segwit.ToWords(p))[20] == 'r' &&
            Bech32.ToChars(Segwit.ToWords(p))[21] == 'v' &&
            Bech32.ToChars(Segwit.ToWords(p))[22] == 'a' &&
            Bech32.ToChars(Segwit.ToWords(p))[23] == 'r' &&
            Bech32.ToChars(Segwit.ToWords(p))[24] == 'y' &&
            Bech32.ToChars(Segwit.ToWords(p))[25] == '0' &&
            Bech32.ToChars(Segwit.ToWords(p))[26] == 'c' &&
            Bech32.ToChars(Segwit.ToWords(p))[27] == '5' &&
            Bech32.ToChars(Segwit.ToWords(p))[28] == 'x' &&
            Bech32.ToChars(Segwit.ToWords(p))[29] == 'w' &&
            Bech32.ToChars(Segwit.ToWords(p))[30] == '7' &&
            Bech32.ToChars(Segwit.ToWords(p))[31] == 'k'
  {
    WpkhWordsAt0(p);
    WpkhWordsAt1(p);
    WpkhWordsAt2(p);
    WpkhWordsAt3(p);
    WpkhWordsAt4(p);
    WpkhWordsAt5(p);
    WpkhWordsAt6(p);
    WpkhWordsAt7(p);
    TestnetP2wpkhProgramChars(Segwit.ToWords(p));
  }

  /** The text of the address, assembled from its characters. */
  lemma TestnetP2wpkhText(p: seq<byte>)
    requires WpkhProgram(p)
    ensures Segwit.Encode("tb", 0, p) == "tb1qw508d6qejxtdg4y5r3zarvary0c5xw7kxpjzsx"
  {
    var ws := Segwit.ToWords(p);
    var cs := Bech32.CreateChecksum("tb", [0] + ws);
    EncodeParts("tb", 0, p);
    TestnetP2wpkhWordChars(p);
    TestnetP2wpkhChecksum(p);
    TestnetP2wpkhChecksumChars(cs);
    TestnetP2wpkhAssemble(Bech32.ToChars(ws), Bech32.ToChars(cs));
  }

  /** test/address-test.js:102-108. */
  lemma TestnetP2wpkh(hash: Base58Check.Hasher, p: seq<byte>)
    requires WpkhProgram(p)
    ensures Address.FromWitnessPubkeyhash(p, "testnet") == Ok(Address.Address(Address.Witness(0), p, Networks.Testnet))
    ensures Address.ToString(hash, Address.Address(Address.Witness(0), p, Networks.Testnet)) == "tb1qw508d6qejxtdg4y5r3zarvary0c5xw7kxpjzsx"
  {
    TestnetP2wpkhText(p);
  }

  lemma TestnetP2wshResidue0(p: seq<byte>)
    requires WshProgram(p) && |Segwit.ToWords(p)| == 52 && Residue(1029310450, Segwit.ToWords(p), 0) == 1029310450
    ensures Residue(1029310450, Segwit.ToWords(p), 4) == 25410095
  {
    WshWordsAt0(p);
    var ws := Segwit.ToWords(p);
    ResidueNext(1029310450, ws, 0, 1029310450, 3, 82262202);
    ResidueNext(1029310450, ws, 1, 82262202, 1, 985110828);
    ResidueNext(1029310450, ws, 2, 985110828, 17, 611203767);
    ResidueNext(1029310450, ws, 3, 611203767, 17, 25410095);
  }

  lemma TestnetP2wshResidue1(p: seq<byte>)
    requires WshProgram(p) && |Segwit.ToWords(p)| == 52 && Residue(1029310450, Segwit.ToWords(p), 4) == 25410095
    ensures Residue(1029310450, Segwit.ToWords(p), 8) == 482770244
  {
    WshWordsAt1(p);
    var ws := Segwit.ToWords(p);
    ResidueNext(1029310450, ws, 4, 25410095, 8, 813123048);
    ResidueNext(1029310450, ws, 5, 813123048, 15, 431942753);
    ResidueNext(1029310450, ws, 6, 431942753, 0, 339650055);
    ResidueNext(1029310450, ws, 7, 339650055, 20, 482770244);
  }

  lemma TestnetP2wshResidue2(p: seq<byte>)
    requires WshProgram(p) && |Segwit.ToWords(p)| == 52 && Residue(1029310450, Segwit.ToWords(p), 8) == 482770244
    ensures Residue(1029310450, Segwit.ToWords(p), 12) == 767361020
  {
    WshWordsAt2(p);
    var ws := Segwit.ToWords(p);
    ResidueNext(1029310450, ws, 8, 482770244, 24, 494669010);
    ResidueNext(1029310450, ws, 9, 494669010, 20, 707935774);
    ResidueNext(1029310450, ws, 10, 707935774, 11, 161017648);
    ResidueNext(1029310450, ws, 11, 161017648, 6, 767361020);
  }

  lemma TestnetP2wshResidue3(p: seq<byte>)
    requires WshProgram(p) && |Segwit.ToWords(p)| == 52 && Residue(1029310450, Segwit.ToWords(p), 12) == 767361020
    ensures Residue(1029310450, Segwit.ToWords(p), 16) == 779718131
  {
    WshWordsAt3(p);
    var ws := Segwit.ToWords(p);
    ResidueNext(1029310450, ws, 12, 767361020, 16, 628755124);
    ResidueNext(1029310450, ws, 13, 628755124, 1, 587577951);
    ResidueNext(1029310450, ws, 14, 587577951, 5, 835288804);
    ResidueNext(1029310450, ws, 15, 835288804, 29, 779718131);
  }

  lemma TestnetP2wshResidue4(p: seq<byte>)
    requires WshProgram(p) && |Segwit.ToWords(p)| == 52 && Residue(1029310450, Segwit.ToWords(p), 16) == 779718131
    ensures Residue(1029310450, Segwit.ToWords(p), 20) == 1014496466
  {
    WshWordsAt4(p);
    var ws := Segwit.ToWords(p);
    ResidueNext(1029310450, ws, 16, 779718131, 3, 649993461);
    ResidueNext(1029310450, ws, 17, 649993461, 4, 552412616);
    ResidueNext(1029310450, ws, 18, 552412616, 16, 934337443);
    ResidueNext(1029310450, ws, 19, 934337443, 3, 1014496466);
  }

  lemma TestnetP2wshResidue5(p: seq<byte>)
    requires WshProgram(p) && |Segwit.ToWords(p)| == 52 && Residue(1029310450, Segwit.ToWords(p), 20) == 1014496466
    ensures Residue(1029310450, Segwit.ToWords(p), 24) == 782970843
  {
    WshWordsAt5(p);
    var ws := Segwit.ToWords(p);
    ResidueNext(1029310450, ws, 20, 1014496466, 6, 559439039);
    ResidueNext(1029310450, ws, 21, 559439039, 21, 18871622);
    ResidueNext(1029310450, ws, 22, 18871622, 22, 603891926);
    ResidueNext(1029310450, ws, 23, 603891926, 26, 782970843);
  }

  lemma TestnetP2wshResidue6(p: seq<byte>)
    requires WshProgram(p) && |Segwit.ToWords(p)| == 52 && Residue(1029310450, Segwit.ToWords(p), 24) == 782970843
    ensures Residue(1029310450, Segwit.ToWords(p), 28) == 590829607
  {
    WshWordsAt6(p);
    var ws := Segwit.ToWords(p);
    ResidueNext(1029310450, ws, 24, 782970843, 2, 1021991412);
    ResidueNext(1029310450, ws, 25, 1021991412, 13, 854390900);
    ResidueNext(1029310450, ws, 26, 854390900, 22, 832768074);
    ResidueNext(1029310450, ws, 27, 832768074, 9, 590829607);
  }

  lemma TestnetP2wshResidue7(p: seq<byte>)
    requires WshProgram(p) && |Segwit.ToWords(p)| == 52 && Residue(1029310450, Segwit.ToWords(p), 28) == 590829607
    ensures Residue(1029310450, Segwit.ToWords(p), 32) == 695284517
  {
    WshWordsAt7(p);
    var ws := Segwit.ToWords(p);
    ResidueNext(1029310450, ws, 28, 590829607, 16, 932524529);
    ResidueNext(1029310450, ws, 29, 932524529, 21, 952809092);
    ResidueNext(1029310450, ws, 30, 952809092, 19, 279025671);
    ResidueNext(1029310450, ws, 31, 279025671, 24, 695284517);
  }

  lemma TestnetP2wshResidue8(p: seq<byte>)
    requires WshProgram(p) && |Segwit.ToWords(p)| == 52 && Residue(1029310450, Segwit.ToWords(p), 32) == 695284517
    ensures Residue(1029310450, Segwit.ToWords(p), 36) == 445677894
  {
    WshWordsAt8(p);
    var ws := Segwit.ToWords(p);
    ResidueNext(1029310450, ws, 32, 695284517, 25, 445849584);
    ResidueNext(1029310450, ws, 33, 445849584, 21, 183141248);
    ResidueNext(1029310450, ws, 34, 183141248, 6, 949698126);
    ResidueNext(1029310450, ws, 35, 949698126, 18, 445677894);
  }

  lemma TestnetP2wshResidue9(p: seq<byte>)
    requires WshProgram(p) && |Segwit.ToWords(p)| == 52 && Residue(1029310450, Segwit.ToWords(p), 36) == 445677894
    ensures Residue(1029310450, Segwit.ToWords(p), 40) == 712899994
  {
    WshWordsAt9(p);
    var ws := Segwit.ToWords(p);
    ResidueNext(1029310450, ws, 36, 445677894, 15, 177821018);
    ResidueNext(1029310450, ws, 37, 177821018, 8, 920773888);
    ResidueNext(1029310450, ws, 38, 920773888, 13, 374352060);
    ResidueNext(1029310450, ws, 39, 374352060, 24, 712899994);
  }

  lemma TestnetP2wshResidue10(p: seq<byte>)
    requires WshProgram(p) && |Segwit.ToWords(p)| == 52 && Residue(1029310450, Segwit.ToWords(p), 40) == 712899994
    ensures Residue(1029310450, Segwit.ToWords(p), 44) == 595463919
  {
    WshWordsAt10(p);
    var ws := Segwit.ToWords(p);
    ResidueNext(1029310450, ws, 40, 712899994, 24, 6332323);
    ResidueNext(1029310450, ws, 41, 6332323, 24, 202634360);
    ResidueNext(1029310450, ws, 42, 202634360, 25, 982456462);
    ResidueNext(1029310450, ws, 43, 982456462, 9, 595463919);
  }

  lemma TestnetP2wshResidue11(p: seq<byte>)
    requires WshProgram(p) && |Segwit.ToWords(p)| == 52 && Residue(1029310450, Segwit.ToWords(p), 44) == 595463919
    ensures Residue(1029310450, Segwit.ToWords(p), 48) == 717945498
  {
    WshWordsAt11(p);
    var ws := Segwit.ToWords(p);
    ResidueNext(1029310450, ws, 44, 595463919, 12, 1052764397);
    ResidueNext(1029310450, ws, 45, 1052764397, 1, 53513450);
    ResidueNext(1029310450, ws, 46, 53513450, 4, 494652150);
    ResidueNext(1029310450, ws, 47, 494652150, 16, 717945498);
  }

  lemma TestnetP2wshResidue12(p: seq<byte>)
    requires WshProgram(p) && |Segwit.ToWords(p)| == 52 && Residue(1029310450, Segwit.ToWords(p), 48) == 717945498
    ensures Residue(1029310450, Segwit.ToWords(p), 52) == 358590919
  {
    WshWordsAt12(p);
    var ws := Segwit.ToWords(p);
    ResidueNext(1029310450, ws, 48, 717945498, 6, 377520061);
    ResidueNext(1029310450, ws, 49, 377520061, 9, 813112747);
    ResidueNext(1029310450, ws, 50, 813112747, 17, 431350815);
    ResidueNext(1029310450, ws, 51, 431350815, 0, 358590919);
  }

  /** The residue over the program's words, after the human-readable part and the version. */
  lemma TestnetP2wshWordsResidue(p: seq<byte>)
    requires WshProgram(p)
    ensures Bech32.PolymodFrom(1029310450, Segwit.ToWords(p)) == 358590919
  {
    WshWordsAt0(p);
    var ws := Segwit.ToWords(p);
    TestnetP2wshResidue0(p);
    TestnetP2wshResidue1(p);
    TestnetP2wshResidue2(p);
    TestnetP2wshResidue3(p);
    TestnetP2wshResidue4(p);
    TestnetP2wshResidue5(p);
    TestnetP2wshResidue6(p);
    TestnetP2wshResidue7(p);
    TestnetP2wshResidue8(p);
    TestnetP2wshResidue9(p);
    TestnetP2wshResidue10(p);
    TestnetP2wshResidue11(p);
    TestnetP2wshResidue12(p);
    ResidueAll(1029310450, ws);
  }

  /** The residue of the checksum input: expanded "tb", the version, the program's words, six zeros. */
  lemma TestnetP2wshResidue(p: seq<byte>)
    requires WshProgram(p)
    ensures Bech32.Polymod(Bech32.HrpExpand("tb") + ([0] + Segwit.ToWords(p)) + Bech32.ZeroWords(6)) == 521130719
  {
    var h, ws := Bech32.HrpExpand("tb"), Segwit.ToWords(p);
    HrpResidueTB();
    TestnetP2wshWordsResidue(p);
    Bech32.PolymodAppend(1, h + ([0] + ws), Bech32.ZeroWords(6));
    Bech32.PolymodAppend(1, h, [0] + ws);
    assert ([0] + ws)[1..] == ws;
    Bech32.Unfold1(36799106, [0] + ws);
    Bech32.Unfold6(358590919, Bech32.ZeroWords(6));
  }

  lemma TestnetP2wshChecksum(p: seq<byte>)
    requires WshProgram(p)
    ensures Bech32.CreateChecksum("tb", [0] + Segwit.ToWords(p)) == [15, 16, 31, 20, 22, 30]
  {
    TestnetP2wshResidue(p);
  }

  lemma TestnetP2wshChars0(ws: seq<Bech32.u5>)
    requires |ws| == 52 && ws[0] == 3 && ws[1] == 1 && ws[2] == 17 && ws[3] == 17
    ensures Bech32.ToChars(ws)[0] == 'r' && Bech32.ToChars(ws)[1] == 'p' &&
            Bech32.ToChars(ws)[2] == '3' && Bech32.ToChars(ws)[3] == '3'
  {
    assert Bech32.Charset[3] == 'r'; assert Bech32.Charset[1] == 'p';
    assert Bech32.Charset[17] == '3'; assert Bech32.Charset[17] == '3';
  }

  lemma TestnetP2wshChars1(ws: seq<Bech32.u5>)
    requires |ws| == 52 && ws[4] == 8 && ws[5] == 15 && ws[6] == 0 && ws[7] == 20
    ensures Bech32.ToChars(ws)[4] == 'g' && Bech32.ToChars(ws)[5] == '0' &&
            Bech32.ToChars(ws)[6] == 'q' && Bech32.ToChars(ws)[7] == '5'
  {
    assert Bech32.Charset[8] == 'g'; assert Bech32.Charset[15] == '0';
    assert Bech32.Charset[0] == 'q'; assert Bech32.Charset[20] == '5';
  }

  lemma TestnetP2wshChars2(ws: seq<Bech32.u5>)
    requires |ws| == 52 && ws[8] == 24 && ws[9] == 20 && ws[10] == 11 && ws[11] == 6
    ensures Bech32.ToChars(ws)[8] == 'c' && Bech32.ToChars(ws)[9] == '5' &&
            Bech32.ToChars(ws)[10] == 't' && Bech32.ToChars(ws)[11] == 'x'
  {
    assert Bech32.Charset[24] == 'c'; assert Bech32.Charset[20] == '5';
    assert Bech32.Charset[11] == 't'; assert Bech32.Charset[6] == 'x';
  }

  lemma TestnetP2wshChars3(ws: seq<Bech32.u5>)
    requires |ws| == 52 && ws[12] == 16 && ws[13] == 1 && ws[14] == 5 && ws[15] == 29
    ensures Bech32.ToChars(ws)[12] == 's' && Bech32.ToChars(ws)[13] == 'p' &&
            Bech32.ToChars(ws)[14] == '9' && Bech32.ToChars(ws)[15] == 'a'
  {
    assert Bech32.Charset[16] == 's'; assert Bech32.Charset[1] == 'p';
    assert Bech32.Charset[5] == '9'; assert Bech32.Charset[29] == 'a';
  }

  lemma TestnetP2wshChars4(ws: seq<Bech32.u5>)
    requires |ws| == 52 && ws[16] == 3 && ws[17] == 4 && ws[18] == 16 && ws[19] == 3
    ensures Bech32.ToChars(ws)[16] == 'r' && Bech32.ToChars(ws)[17] == 'y' &&
            Bech32.ToChars(ws)[18] == 's' && Bech32.ToChars(ws)[19] == 'r'
  {
    assert Bech32.Charset[3] == 'r'; assert Bech32.Charset[4] == 'y';
    assert Bech32.Charset[16] == 's'; assert Bech32.Charset[3] == 'r';
  }

  lemma TestnetP2wshChars5(ws: seq<Bech32.u5>)
    requires |ws| == 52 && ws[20] == 6 && ws[21] == 21 && ws[22] == 22 && ws[23] == 26
    ensures Bech32.ToChars(ws)[20] == 'x' && Bech32.ToChars(ws)[21] == '4' &&
            Bech32.ToChars(ws)[22] == 'k' && Bech32.ToChars(ws)[23] == '6'
  {
    assert Bech32.Charset[6] == 'x'; assert Bech32.Charset[21] == '4';
    assert Bech32.Charset[22] == 'k'; assert Bech32.Charset[26] == '6';
  }

  lemma TestnetP2wshChars6(ws: seq<Bech32.u5>)
    requires |ws| == 52 && ws[24] == 2 && ws[25] == 13 && ws[26] == 22 && ws[27] == 9
    ensures Bech32.ToChars(ws)[24] == 'z' && Bech32.ToChars(ws)[25] == 'd' &&
            Bech32.ToChars(ws)[26] == 'k' && Bech32.ToChars(ws)[27] == 'f'
  {
    assert Bech32.Charset[2] == 'z'; assert Bech32.Charset[13] == 'd';
    assert Bech32.Charset[22] == 'k'; assert Bech32.Charset[9] == 'f';
  }

  lemma TestnetP2wshChars7(ws: seq<Bech32.u5>)
    requires |ws| == 52 && ws[28] == 16 && ws[29] == 21 && ws[30] == 19 && ws[31] == 24
    ensures Bech32.ToChars(ws)[28] == 's' && Bech32.ToChars(ws)[29] == '4' &&
            Bech32.ToChars(ws)[30] == 'n' && Bech32.ToChars(ws)[31] == 'c'
  {
    assert Bech32.Charset[16] == 's'; assert Bech32.Charset[21] == '4';
    assert Bech32.Charset[19] == 'n'; assert Bech32.Charset[24] == 'c';
  }

  lemma TestnetP2wshChars8(ws: seq<Bech32.u5>)
    requires |ws| == 52 && ws[32] == 25 && ws[33] == 21 && ws[34] == 6 && ws[35] == 18
    ensures Bech32.ToChars(ws)[32] == 'e' && Bech32.ToChars(ws)[33] == '4' &&
            Bech32.ToChars(ws)[34] == 'x' && Bech32.ToChars(ws)[35] == 'j'
  {
    assert Bech32.Charset[25] == 'e'; assert Bech32.Charset[21] == '4';
    assert Bech32.Charset[6] == 'x'; assert Bech32.Charset[18] == 'j';
  }

  lemma TestnetP2wshChars9(ws: seq<Bech32.u5>)
    requires |ws| == 52 && ws[36] == 15 && ws[37] == 8 && ws[38] == 13 && ws[39] == 24
    ensures Bech32.ToChars(ws)[36] == '0' && Bech32.ToChars(ws)[37] == 'g' &&
            Bech32.ToChars(ws)[38] == 'd' && Bech32.ToChars(ws)[39] == 'c'
  {
    assert Bech32.Charset[15] == '0'; assert Bech32.Charset[8] == 'g';
    assert Bech32.Charset[13] == 'd'; assert Bech32.Charset[24] == 'c';
  }

  lemma TestnetP2wshChars10(ws: seq<Bech32.u5>)
    requires |ws| == 52 && ws[40] == 24 && ws[41] == 24 && ws[42] == 25 && ws[43] == 9
    ensures Bech32.ToChars(ws)[40] == 'c' && Bech32.ToChars(ws)[41] == 'c' &&
            Bech32.ToChars(ws)[42] == 'e' && Bech32.ToChars(ws)[43] == 'f'
  {
    assert Bech32.Charset[24] == 'c'; assert Bech32.Charset[24] == 'c';
    assert Bech32.Charset[25] == 'e'; assert Bech32.Charset[9] == 'f';
  }

  lemma TestnetP2wshChars11(ws: seq<Bech32.u5>)
    requires |ws| == 52 && ws[44] == 12 && ws[45] == 1 && ws[46] == 4 && ws[47] == 16
    ensures Bech32.ToChars(ws)[44] == 'v' && Bech32.ToChars(ws)[45] == 'p' &&
            Bech32.ToChars(ws)[46] == 'y' && Bech32.ToChars(ws)[47] == 's'
  {
    assert Bech32.Charset[12] == 'v'; assert Bech32.Charset[1] == 'p';
    assert Bech32.Charset[4] == 'y'; assert Bech32.Charset[16] == 's';
  }

  lemma TestnetP2wshChars12(ws: seq<Bech32.u5>)
    requires |ws| == 52 && ws[48] == 6 && ws[49] == 9 && ws[50] == 17 && ws[51] == 0
    ensures Bech32.ToChars(ws)[48] == 'x' && Bech32.ToChars(ws)[49] == 'f' &&
            Bech32.ToChars(ws)[50] == '3' && Bech32.ToChars(ws)[51] == 'q'
  {
    assert Bech32.Charset[6] == 'x'; assert Bech32.Charset[9] == 'f';
    assert Bech32.Charset[17] == '3'; assert Bech32.Charset[0] == 'q';
  }

  lemma TestnetP2wshChecksumChars(cs: seq<Bech32.u5>)
    requires cs == [15, 16, 31, 20, 22, 30]
    ensures Bech32.ToChars(cs)[0] == '0' && Bech32.ToChars(cs)[1] == 's' &&
            Bech32.ToChars(cs)[2] == 'l' && Bech32.ToChars(cs)[3] == '5' &&
            Bech32.ToChars(cs)[4] == 'k' && Bech32.ToChars(cs)[5] == '7'
  {
    assert Bech32.Charset[15] == '0'; assert Bech32.Charset[16] == 's';
    assert Bech32.Charset[31] == 'l'; assert Bech32.Charset[20] == '5';
    assert Bech32.Charset[22] == 'k'; assert Bech32.Charset[30] == '7';
  }

  lemma TestnetP2wshAssemble0(t: string, c: string)
    requires |t| == 52 && t[0] == 'r' && t[1] == 'p' && t[2] == '3' && t[3] == '3' &&
             t[4] == 'g' && t[5] == '0' && t[6] == 'q' && t[7] == '5' && t[8] == 'c' &&
             t[9] == '5' && t[10] == 't' && t[11] == 'x'
    requires |c| == 6
    ensures ("tb" + "1" + [Bech32.Charset[0]] + t + c)[0] == 't' &&
            ("tb" + "1" + [Bech32.Charset[0]] + t + c)[1] == 'b' &&
            ("tb" + "1" + [Bech32.Charset[0]] + t + c)[2] == '1' &&
            ("tb" + "1" + [Bech32.Charset[0]] + t + c)[3] == 'q' &&
            ("tb" + "1" + [Bech32.Charset[0]] + t + c)[4] == 'r' &&
            ("tb" + "1" + [Bech32.Charset[0]] + t + c)[5] == 'p' &&
            ("tb" + "1" + [Bech32.Charset[0]] + t + c)[6] == '3' &&
            ("tb" + "1" + [Bech32.Charset[0]] + t + c)[7] == '3' &&
            ("tb" + "1" + [Bech32.Charset[0]] + t + c)[8] == 'g' &&
            ("tb" + "1" + [Bech32.Charset[0]] + t + c)[9] == '0' &&
            ("tb" + "1" + [Bech32.Charset[0]] + t + c)[10] == 'q' &&
            ("tb" + "1" + [Bech32.Charset[0]] + t + c)[11] == '5' &&
            ("tb" + "1" + [Bech32.Charset[0]] + t + c)[12] == 'c' &&
            ("tb" + "1" + [Bech32.Charset[0]] + t + c)[13] == '5' &&
            ("tb" + "1" + [Bech32.Charset[0]] + t + c)[14] == 't' &&
            ("tb" + "1" + [Bech32.Charset[0]] + t + c)[15] == 'x'
  {
    assert Bech32.Charset[0] == 'q';
  }

  lemma TestnetP2wshAssemble1(t: string, c: string)
    requires |t| == 52 && t[12] == 's' && t[13] == 'p' && t[14] == '9' && t[15] == 'a' &&
             t[16] == 'r' && t[17] == 'y' && t[18] == 's' && t[19] == 'r' && t[20] == 'x' &&
             t[21] == '4' && t[22] == 'k' && t[23] == '6' && t[24] == 'z' && t[25] == 'd' &&
             t[26] == 'k' && t[27] == 'f'
    requires |c| == 6
    ensures ("tb" + "1" + [Bech32.Charset[0]] + t + c)[16] == 's' &&
            ("tb" + "1" + [Bech32.Charset[0]] + t + c)[17] == 'p' &&
            ("tb" + "1" + [Bech32.Charset[0]] + t + c)[18] == '9' &&
            ("tb" + "1" + [Bech32.Charset[0]] + t + c)[19] == 'a' &&
            ("tb" + "1" + [Bech32.Charset[0]] + t + c)[20] == 'r' &&
            ("tb" + "1" + [Bech32.Charset[0]] + t + c)[21] == 'y' &&
            ("tb" + "1" + [Bech32.Charset[0]] + t + c)[22] == 's' &&
            ("tb" + "1" + [Bech32.Charset[0]] + t + c)[23] == 'r' &&
            ("tb" + "1" + [Bech32.Charset[0]] + t + c)[24] == 'x' &&
            ("tb" + "1" + [Bech32.Charset[0]] + t + c)[25] == '4' &&
            ("tb" + "1" + [Bech32.Charset[0]] + t + c)[26] == 'k' &&
            ("tb" + "1" + [Bech32.Charset[0]] + t + c)[27] == '6' &&
            ("tb" + "1" + [Bech32.Charset[0]] + t + c)[28] == 'z' &&
            ("tb" + "1" + [Bech32.Charset[0]] + t + c)[29] == 'd' &&
            ("tb" + "1" + [Bech32.Charset[0]] + t + c)[30] == 'k' &&
            ("tb" + "1" + [Bech32.Charset[0]] + t + c)[31] == 'f'
  {
  }

  lemma TestnetP2wshAssemble2(t: string, c: string)
    requires |t| == 52 && t[28] == 's' && t[29] == '4' && t[30] == 'n' && t[31] == 'c' &&
             t[32] == 'e' && t[33] == '4' && t[34] == 'x' && t[35] == 'j' && t[36] == '0' &&
             t[37] == 'g' && t[38] == 'd' && t[39] == 'c' && t[40] == 'c' && t[41] == 'c' &&
             t[42] == 'e' && t[43] == 'f'
    requires |c| == 6
    ensures ("tb" + "1" + [Bech32.Charset[0]] + t + c)[32] == 's' &&
            ("tb" + "1" + [Bech32.Charset[0]] + t + c)[33] == '4' &&
            ("tb" + "1" + [Bech32.Charset[0]] + t + c)[34] == 'n' &&
            ("tb" + "1" + [Bech32.Charset[0]] + t + c)[35] == 'c' &&
            ("tb" + "1" + [Bech32.Charset[0]] + t + c)[36] == 'e' &&
            ("tb" + "1" + [Bech32.Charset[0]] + t + c)[37] == '4' &&
            ("tb" + "1" + [Bech32.Charset[0]] + t + c)[38] == 'x' &&
            ("tb" + "1" + [Bech32.Charset[0]] + t + c)[39] == 'j' &&
            ("tb" + "1" + [Bech32.Charset[0]] + t + c)[40] == '0' &&
            ("tb" + "1" + [Bech32.Charset[0]] + t + c)[41] == 'g' &&
            ("tb" + "1" + [Bech32.Charset[0]] + t + c)[42] == 'd' &&
            ("tb" + "1" + [Bech32.Charset[0]] + t + c)[43] == 'c' &&
            ("tb" + "1" + [Bech32.Charset[0]] + t + c)[44] == 'c' &&
            ("tb" + "1" + [Bech32.Charset[0]] + t + c)[45] == 'c' &&
            ("tb" + "1" + [Bech32.Charset[0]] + t + c)[46] == 'e' &&
            ("tb" + "1" + [Bech32.Charset[0]] + t + c)[47] == 'f'
  {
  }

  lemma TestnetP2wshAssemble3(t: string, c: string)
    requires |t| == 52 && t[44] == 'v' && t[45] == 'p' && t[46] == 'y' && t[47] == 's' &&
             t[48] == 'x' && t[49] == 'f' && t[50] == '3' && t[51] == 'q'
    requires |c| == 6 && c[0] == '0' && c[1] == 's' && c[2] == 'l' && c[3] == '5' && c[4] == 'k' &&
             c[5] == '7'
    ensures ("tb" + "1" + [Bech32.Charset[0]] + t + c)[48] == 'v' &&
            ("tb" + "1" + [Bech32.Charset[0]] + t + c)[49] == 'p' &&
            ("tb" + "1" + [Bech32.Charset[0]] + t + c)[50] == 'y' &&
            ("tb" + "1" + [Bech32.Charset[0]] + t + c)[51] == 's' &&
            ("tb" + "1" + [Bech32.Charset[0]] + t + c)[52] == 'x' &&
            ("tb" + "1" + [Bech32.Charset[0]] + t + c)[53] == 'f' &&
            ("tb" + "1" + [Bech32.Charset[0]] + t + c)[54] == '3' &&
            ("tb" + "1" + [Bech32.Charset[0]] + t + c)[55] == 'q' &&
            ("tb" + "1" + [Bech32.Charset[0]] + t + c)[56] == '0' &&
            ("tb" + "1" + [Bech32.Charset[0]] + t + c)[57] == 's' &&
            ("tb" + "1" + [Bech32.Charset[0]] + t + c)[58] == 'l' &&
            ("tb" + "1" + [Bech32.Charset[0]] + t + c)[59] == '5' &&
            ("tb" + "1" + [Bech32.Charset[0]] + t + c)[60] == 'k' &&
            ("tb" + "1" + [Bech32.Charset[0]] + t + c)[61] == '7'
  {
  }

  lemma TestnetP2wshLiteral()
    ensures "tb1qrp33g0q5c5txsp9arysrx4k6zdk" + "fs4nce4xj0gdcccefvpysxf3q0sl5k7" == "tb1qrp33g0q5c5txsp9arysrx4k6zdkfs4nce4xj0gdcccefvpysxf3q0sl5k7"
  {}

  lemma TestnetP2wshGlue(e: string)
    requires |e| == 62 && e[0] == 't' && e[1] == 'b' && e[2] == '1' && e[3] == 'q' &&
             e[4] == 'r' && e[5] == 'p' && e[6] == '3' && e[7] == '3' && e[8] == 'g' &&
             e[9] == '0' && e[10] == 'q' && e[11] == '5' && e[12] == 'c' && e[13] == '5' &&
             e[14] == 't' && e[15] == 'x' && e[16] == 's' && e[17] == 'p' && e[18] == '9' &&
             e[19] == 'a' && e[20] == 'r' && e[21] == 'y' && e[22] == 's' && e[23] == 'r' &&
             e[24] == 'x' && e[25] == '4' && e[26] == 'k' && e[27] == '6' && e[28] == 'z' &&
             e[29] == 'd' && e[30] == 'k' && e[31] == 'f' && e[32] == 's' && e[33] == '4' &&
             e[34] == 'n' && e[35] == 'c' && e[36] == 'e' && e[37] == '4' && e[38] == 'x' &&
             e[39] == 'j' && e[40] == '0' && e[41] == 'g' && e[42] == 'd' && e[43] == 'c' &&
             e[44] == 'c' && e[45] == 'c' && e[46] == 'e' && e[47] == 'f' && e[48] == 'v' &&
             e[49] == 'p' && e[50] == 'y' && e[51] == 's' && e[52] == 'x' && e[53] == 'f' &&
             e[54] == '3' && e[55] == 'q' && e[56] == '0' && e[57] == 's' && e[58] == 'l' &&
             e[59] == '5' && e[60] == 'k' && e[61] == '7'
    ensures e == "tb1qrp33g0q5c5txsp9arysrx4k6zdkfs4nce4xj0gdcccefvpysxf3q0sl5k7"
  {
    TestnetP2wshLiteral();
    assert e == "tb1qrp33g0q5c5txsp9arysrx4k6zdk" + "fs4nce4xj0gdcccefvpysxf3q0sl5k7";
  }

  lemma TestnetP2wshAssemble(t: string, c: string)
    requires |t| == 52 && t[0] == 'r' && t[1] == 'p' && t[2] == '3' && t[3] == '3' &&
             t[4] == 'g' && t[5] == '0' && t[6] == 'q' && t[7] == '5' && t[8] == 'c' &&
             t[9] == '5' && t[10] == 't' && t[11] == 'x' && t[12] == 's' && t[13] == 'p' &&
             t[14] == '9' && t[15] == 'a' && t[16] == 'r' && t[17] == 'y' && t[18] == 's' &&
             t[19] == 'r' && t[20] == 'x' && t[21] == '4' && t[22] == 'k' && t[23] == '6' &&
             t[24] == 'z' && t[25] == 'd' && t[26] == 'k' && t[27] == 'f' && t[28] == 's' &&
             t[29] == '4' && t[30] == 'n' && t[31] == 'c' && t[32] == 'e' && t[33] == '4' &&
             t[34] == 'x' && t[35] == 'j' && t[36] == '0' && t[37] == 'g' && t[38] == 'd' &&
             t[39] == 'c' && t[40] == 'c' && t[41] == 'c' && t[42] == 'e' && t[43] == 'f' &&
             t[44] == 'v' && t[45] == 'p' && t[46] == 'y' && t[47] == 's' && t[48] == 'x' &&
             t[49] == 'f' && t[50] == '3' && t[51] == 'q'
    requires |c| == 6 && c[0] == '0' && c[1] == 's' && c[2] == 'l' && c[3] == '5' && c[4] == 'k' &&
             c[5] == '7'
    ensures "tb" + "1" + [Bech32.Charset[0]] + t + c == "tb1qrp33g0q5c5txsp9arysrx4k6zdkfs4nce4xj0gdcccefvpysxf3q0sl5k7"
  {
    TestnetP2wshAssemble0(t, c);
    TestnetP2wshAssemble1(t, c);
    TestnetP2wshAssemble2(t, c);
    TestnetP2wshAssemble3(t, c);
    TestnetP2wshGlue("tb" + "1" + [Bech32.Charset[0]] + t + c);
  }

  lemma TestnetP2wshProgramChars(ws: seq<Bech32.u5>)
    requires |ws| == 52 && ws[0] == 3 && ws[1] == 1 && ws[2] == 17 && ws[3] == 17 && ws[4] == 8 &&
             ws[5] == 15 && ws[6] == 0 && ws[7] == 20 && ws[8] == 24 && ws[9] == 20 &&
             ws[10] == 11 && ws[11] == 6 && ws[12] == 16 && ws[13] == 1 && ws[14] == 5 &&
             ws[15] == 29 && ws[16] == 3 && ws[17] == 4 && ws[18] == 16 && ws[19] == 3 &&
             ws[20] == 6 && ws[21] == 21 && ws[22] == 22 && ws[23] == 26 && ws[24] == 2 &&
             ws[25] == 13 && ws[26] == 22 && ws[27] == 9 && ws[28] == 16 && ws[29] == 21 &&
             ws[30] == 19 && ws[31] == 24 && ws[32] == 25 && ws[33] == 21 && ws[34] == 6 &&
             ws[35] == 18 && ws[36] == 15 && ws[37] == 8 && ws[38] == 13 && ws[39] == 24 &&
             ws[40] == 24 && ws[41] == 24 && ws[42] == 25 && ws[43] == 9 && ws[44] == 12 &&
             ws[45] == 1 && ws[46] == 4 && ws[47] == 16 && ws[48] == 6 && ws[49] == 9 &&
             ws[50] == 17 && ws[51] == 0
    ensures |Bech32.ToChars(ws)| == 52
    ensures Bech32.ToChars(ws)[0] == 'r' && Bech32.ToChars(ws)[1] == 'p' &&
            Bech32.ToChars(ws)[2] == '3' && Bech32.ToChars(ws)[3] == '3' &&
            Bech32.ToChars(ws)[4] == 'g' && Bech32.ToChars(ws)[5] == '0' &&
            Bech32.ToChars(ws)[6] == 'q' && Bech32.ToChars(ws)[7] == '5' &&
            Bech32.ToChars(ws)[8] == 'c' && Bech32.ToChars(ws)[9] == '5' &&
            Bech32.ToChars(ws)[10] == 't' && Bech32.ToChars(ws)[11] == 'x' &&
            Bech32.ToChars(ws)[12] == 's' && Bech32.ToChars(ws)[13] == 'p' &&
            Bech32.ToChars(ws)[14] == '9' && Bech32.ToChars(ws)[15] == 'a' &&
            Bech32.ToChars(ws)[16] == 'r' && Bech32.ToChars(ws)[17] == 'y' &&
            Bech32.ToChars(ws)[18] == 's' && Bech32.ToChars(ws)[19] == 'r' &&
            Bech32.ToChars(ws)[20] == 'x' && Bech32.ToChars(ws)[21] == '4' &&
            Bech32.ToChars(ws)[22] == 'k' && Bech32.ToChars(ws)[23] == '6' &&
            Bech32.ToChars(ws)[24] == 'z' && Bech32.ToChars(ws)[25] == 'd' &&
            Bech32.ToChars(ws)[26] == 'k' && Bech32.ToChars(ws)[27] == 'f' &&
            Bech32.ToChars(ws)[28] == 's' && Bech32.ToChars(ws)[29] == '4' &&
            Bech32.ToChars(ws)[30] == 'n' && Bech32.ToChars(ws)[31] == 'c' &&
            Bech32.ToChars(ws)[32] == 'e' && Bech32.ToChars(ws)[33] == '4' &&
            Bech32.ToChars(ws)[34] == 'x' && Bech32.ToChars(ws)[35] == 'j' &&
            Bech32.ToChars(ws)[36] == '0' && Bech32.ToChars(ws)[37] == 'g' &&
            Bech32.ToChars(ws)[38] == 'd' && Bech32.ToChars(ws)[39] == 'c' &&
            Bech32.ToChars(ws)[40] == 'c' && Bech32.ToChars(ws)[41] == 'c' &&
            Bech32.ToChars(ws)[42] == 'e' && Bech32.ToChars(ws)[43] == 'f' &&
            Bech32.ToChars(ws)[44] == 'v' && Bech32.ToChars(ws)[45] == 'p' &&
            Bech32.ToChars(ws)[46] == 'y' && Bech32.ToChars(ws)[47] == 's' &&
            Bech32.ToChars(ws)[48] == 'x' && Bech32.ToChars(ws)[49] == 'f' &&
            Bech32.ToChars(ws)[50] == '3' && Bech32.ToChars(ws)[51] == 'q'
  {
    TestnetP2wshChars0(ws);
    TestnetP2wshChars1(ws);
    TestnetP2wshChars2(ws);
    TestnetP2wshChars3(ws);
    TestnetP2wshChars4(ws);
    TestnetP2wshChars5(ws);
    TestnetP2wshChars6(ws);
    TestnetP2wshChars7(ws);
    TestnetP2wshChars8(ws);
    TestnetP2wshChars9(ws);
    TestnetP2wshChars10(ws);
    TestnetP2wshChars11(ws);
    TestnetP2wshChars12(ws);
  }

  lemma TestnetP2wshWordChars(p: seq<byte>)
    requires WshProgram(p)
    ensures |Bech32.ToChars(Segwit.ToWords(p))| == 52
    ensures Bech32.ToChars(Segwit.ToWords(p))[0] == 'r' &&
            Bech32.ToChars(Segwit.ToWords(p))[1] == 'p' &&
            Bech32.ToChars(Segwit.ToWords(p))[2] == '3' &&
            Bech32.ToChars(Segwit.ToWords(p))[3] == '3' &&
            Bech32.ToChars(Segwit.ToWords(p))[4] == 'g' &&
            Bech32.ToChars(Segwit.ToWords(p))[5] == '0' &&
            Bech32.ToChars(Segwit.ToWords(p))[6] == 'q' &&
            Bech32.ToChars(Segwit.ToWords(p))[7] == '5' &&
            Bech32.ToChars(Segwit.ToWords(p))[8] == 'c' &&
            Bech32.ToChars(Segwit.ToWords(p))[9] == '5' &&
            Bech32.ToChars(Segwit.ToWords(p))[10] == 't' &&
            Bech32.ToChars(Segwit.ToWords(p))[11] == 'x' &&
            Bech32.ToChars(Segwit.ToWords(p))[12] == 's' &&
            Bech32.ToChars(Segwit.ToWords(p))[13] == 'p' &&
            Bech32.ToChars(Segwit.ToWords(p))[14] == '9' &&
            Bech32.ToChars(Segwit.ToWords(p))[15] == 'a' &&
            Bech32.ToChars(Segwit.ToWords(p))[16] == 'r' &&
            Bech32.ToChars(Segwit.ToWords(p))[17] == 'y' &&
            Bech32.ToChars(Segwit.ToWords(p))[18] == 's' &&
            Bech32.ToChars(Segwit.ToWords(p))[19] == 'r' &&
            Bech32.ToChars(Segwit.ToWords(p))[20] == 'x' &&
            Bech32.ToChars(Segwit.ToWords(p))[21] == '4' &&
            Bech32.ToChars(Segwit.ToWords(p))[22] == 'k' &&
            Bech32.ToChars(Segwit.ToWords(p))[23] == '6' &&
            Bech32.ToChars(Segwit.ToWords(p))[24] == 'z' &&
            Bech32.ToChars(Segwit.ToWords(p))[25] == 'd' &&
            Bech32.ToChars(Segwit.ToWords(p))[26] == 'k' &&
            Bech32.ToChars(Segwit.ToWords(p))[27] == 'f' &&
            Bech32.ToChars(Segwit.ToWords(p))[28] == 's' &&
            Bech32.ToChars(Segwit.ToWords(p))[29] == '4' &&
            Bech32.ToChars(Segwit.ToWords(p))[30] == 'n' &&
            Bech32.ToChars(Segwit.ToWords(p))[31] == 'c' &&
            Bech32.ToChars(Segwit.ToWords(p))[32] == 'e' &&
            Bech32.ToChars(Segwit.ToWords(p))[33] == '4' &&
            Bech32.ToChars(Segwit.ToWords(p))[34] == 'x' &&
            Bech32.ToChars(Segwit.ToWords(p))[35] == 'j' &&
            Bech32.ToChars(Segwit.ToWords(p))[36] == '0' &&
            Bech32.ToChars(Segwit.ToWords(p))[37] == 'g' &&
            Bech32.ToChars(Segwit.ToWords(p))[38] == 'd' &&
            Bech32.ToChars(Segwit.ToWords(p))[39] == 'c' &&
            Bech32.ToChars(Segwit.ToWords(p))[40] == 'c' &&
            Bech32.ToChars(Segwit.ToWords(p))[41] == 'c' &&
            Bech32.ToChars(Segwit.ToWords(p))[42] == 'e' &&
            Bech32.ToChars(Segwit.ToWords(p))[43] == 'f' &&
            Bech32.ToChars(Segwit.ToWords(p))[44] == 'v' &&
            Bech32.ToChars(Segwit.ToWords(p))[45] == 'p' &&
            Bech32.ToChars(Segwit.ToWords(p))[46] == 'y' &&
            Bech32.ToChars(Segwit.ToWords(p))[47] == 's' &&
            Bech32.ToChars(Segwit.ToWords(p))[48] == 'x' &&
            Bech32.ToChars(Segwit.ToWords(p))[49] == 'f' &&
            Bech32.ToChars(Segwit.ToWords(p))[50] == '3' &&
            Bech32.ToChars(Segwit.ToWords(p))[51] == 'q'
  {
    WshWordsAt0(p);
    WshWordsAt1(p);
    WshWordsAt2(p);
    WshWordsAt3(p);
    WshWordsAt4(p);
    WshWordsAt5(p);
    WshWordsAt6(p);
    WshWordsAt7(p);
    WshWordsAt8(p);
    WshWordsAt9(p);
    WshWordsAt10(p);
    WshWordsAt11(p);
    WshWordsAt12(p);
    TestnetP2wshProgramChars(Segwit.ToWords(p));
  }

  /** The text of the address, assembled from its characters. */
  lemma TestnetP2wshText(p: seq<byte>)
    requires WshProgram(p)
    ensures Segwit.Encode("tb", 0, p) == "tb1qrp33g0q5c5txsp9arysrx4k6zdkfs4nce4xj0gdcccefvpysxf3q0sl5k7"
  {
    var ws := Segwit.ToWords(p);
    var cs := Bech32.CreateChecksum("tb", [0] + ws);
    EncodeParts("tb", 0, p);
    TestnetP2wshWordChars(p);
    TestnetP2wshChecksum(p);
    TestnetP2wshChecksumChars(cs);
    TestnetP2wshAssemble(Bech32.ToChars(ws), Bech32.ToChars(cs));
  }

  /** test/address-test.js:110-119. */
  lemma TestnetP2wsh(hash: Base58Check.Hasher, p: seq<byte>)
    requires WshProgram(p)
    ensures Address.FromWitnessScripthash(p, "testnet") == Ok(Address.Address(Address.Witness(0), p, Networks.Testnet))
    ensures Address.ToString(hash, Address.Address(Address.Witness(0), p, Networks.Testnet)) == "tb1qrp33g0q5c5txsp9arysrx4k6zdkfs4nce4xj0gdcccefvpysxf3q0sl5k7"
  {
    TestnetP2wshText(p);
  }

  lemma TestnetP2wshZerosResidue0(p: seq<byte>)
    requires WshZerosProgram(p) && |Segwit.ToWords(p)| == 52 && Residue(1029310450, Segwit.ToWords(p), 0) == 1029310450
    ensures Residue(1029310450, Segwit.ToWords(p), 4) == 25312286
  {
    WshZerosWordsAt0(p);
    var ws := Segwit.ToWords(p);
    ResidueNext(1029310450, ws, 0, 1029310450, 0, 82262201);
    ResidueNext(1029310450, ws, 1, 82262201, 0, 985110861);
    ResidueNext(1029310450, ws, 2, 985110861, 0, 611202694);
    ResidueNext(1029310450, ws, 3, 611202694, 0, 25312286);
  }

  lemma TestnetP2wshZerosResidue1(p: seq<byte>)
    requires WshZerosProgram(p) && |Segwit.ToWords(p)| == 52 && Residue(1029310450, Segwit.ToWords(p), 4) == 25312286
    ensures Residue(1029310450, Segwit.ToWords(p), 8) == 642797037
  {
    WshZerosWordsAt1(p);
    var ws := Segwit.ToWords(p);
    ResidueNext(1029310450, ws, 4, 25312286, 1, 809993153);
    ResidueNext(1029310450, ws, 5, 809993153, 17, 530983263);
    ResidueNext(1029310450, ws, 6, 530983263, 5, 169662493);
    ResidueNext(1029310450, ws, 7, 169662493, 5, 642797037);
  }

  lemma TestnetP2wshZerosResidue2(p: seq<byte>)
    requires WshZerosProgram(p) && |Segwit.ToWords(p)| == 52 && Residue(1029310450, Segwit.ToWords(p), 8) == 642797037
    ensures Residue(1029310450, Segwit.ToWords(p), 12) == 501815249
  {
    WshZerosWordsAt2(p);
    var ws := Segwit.ToWords(p);
    ResidueNext(1029310450, ws, 8, 642797037, 25, 1025967829);
    ResidueNext(1029310450, ws, 9, 1025967829, 11, 189209682);
    ResidueNext(1029310450, ws, 10, 189209682, 10, 220775426);
    ResidueNext(1029310450, ws, 11, 220775426, 6, 501815249);
  }

  lemma TestnetP2wshZerosResidue3(p: seq<byte>)
    requires WshZerosProgram(p) && |Segwit.ToWords(p)| == 52 && Residue(1029310450, Segwit.ToWords(p), 12) == 501815249
    ensures Residue(1029310450, Segwit.ToWords(p), 16) == 843380243
  {
    WshZerosWordsAt3(p);
    var ws := Segwit.ToWords(p);
    ResidueNext(1029310450, ws, 12, 501815249, 4, 949050990);
    ResidueNext(1029310450, ws, 13, 949050990, 8, 467436892);
    ResidueNext(1029310450, ws, 14, 467436892, 13, 588895768);
    ResidueNext(1029310450, ws, 15, 588895768, 18, 843380243);
  }

  lemma TestnetP2wshZerosResidue4(p: seq<byte>)
    requires WshZerosProgram(p) && |Segwit.ToWords(p)| == 52 && Residue(1029310450, Segwit.ToWords(p), 16) == 843380243
    ensures Residue(1029310450, Segwit.ToWords(p), 20) == 664159786
  {
    WshZerosWordsAt4(p);
    var ws := Segwit.ToWords(p);
    ResidueNext(1029310450, ws, 16, 843380243, 20, 614646952);
    ResidueNext(1029310450, ws, 17, 614646952, 6, 404519384);
    ResidueNext(1029310450, ws, 18, 404519384, 3, 543953188);
    ResidueNext(1029310450, ws, 19, 543953188, 25, 664159786);
  }

  lemma TestnetP2wshZerosResidue5(p: seq<byte>)
    requires WshZerosProgram(p) && |Segwit.ToWords(p)| == 52 && Residue(1029310450, Segwit.ToWords(p), 20) == 664159786
    ensures Residue(1029310450, Segwit.ToWords(p), 24) == 164304570
  {
    WshZerosWordsAt5(p);
    var ws := Segwit.ToWords(p);
    ResidueNext(1029310450, ws, 20, 664159786, 0, 98991660);
    ResidueNext(1029310450, ws, 21, 98991660, 23, 446647290);
    ResidueNext(1029310450, ws, 22, 446647290, 18, 190841543);
    ResidueNext(1029310450, ws, 23, 190841543, 18, 164304570);
  }

  lemma TestnetP2wshZerosResidue6(p: seq<byte>)
    requires WshZerosProgram(p) && |Segwit.ToWords(p)| == 52 && Residue(1029310450, Segwit.ToWords(p), 24) == 164304570
    ensures Residue(1029310450, Segwit.ToWords(p), 28) == 444312715
  {
    WshZerosWordsAt6(p);
    var ws := Segwit.ToWords(p);
    ResidueNext(1029310450, ws, 24, 164304570, 12, 667143862);
    ResidueNext(1029310450, ws, 25, 667143862, 24, 257387956);
    ResidueNext(1029310450, ws, 26, 257387956, 27, 695629502);
    ResidueNext(1029310450, ws, 27, 695629502, 2, 444312715);
  }

  lemma TestnetP2wshZerosResidue7(p: seq<byte>)
    requires WshZerosProgram(p) && |Segwit.ToWords(p)| == 52 && Residue(1029310450, Segwit.ToWords(p), 28) == 444312715
    ensures Residue(1029310450, Segwit.ToWords(p), 32) == 898447719
  {
    WshZerosWordsAt7(p);
    var ws := Segwit.ToWords(p);
    ResidueNext(1029310450, ws, 28, 444312715, 23, 402451682);
    ResidueNext(1029310450, ws, 29, 402451682, 6, 535131716);
    ResidueNext(1029310450, ws, 30, 535131716, 14, 41368438);
    ResidueNext(1029310450, ws, 31, 41368438, 21, 898447719);
  }

  lemma TestnetP2wshZerosResidue8(p: seq<byte>)
    requires WshZerosProgram(p) && |Segwit.ToWords(p)| == 52 && Residue(1029310450, Segwit.ToWords(p), 32) == 898447719
    ensures Residue(1029310450, Segwit.ToWords(p), 36) == 505086860
  {
    WshZerosWordsAt8(p);
    var ws := Segwit.ToWords(p);
    ResidueNext(1029310450, ws, 32, 898447719, 29, 10613758);
    ResidueNext(1029310450, ws, 33, 10613758, 4, 339640260);
    ResidueNext(1029310450, ws, 34, 339640260, 14, 484263230);
    ResidueNext(1029310450, ws, 35, 484263230, 6, 505086860);
  }

  lemma TestnetP2wshZerosResidue9(p: seq<byte>)
    requires WshZerosProgram(p) && |Segwit.ToWords(p)| == 52 && Residue(1029310450, Segwit.ToWords(p), 36) == 505086860
    ensures Residue(1029310450, Segwit.ToWords(p), 40) == 890770371
  {
    WshZerosWordsAt9(p);
    var ws := Segwit.ToWords(p);
    ResidueNext(1029310450, ws, 36, 505086860, 25, 1035567713);
    ResidueNext(1029310450, ws, 37, 1035567713, 24, 412584641);
    ResidueNext(1029310450, ws, 38, 412584641, 18, 823292437);
    ResidueNext(1029310450, ws, 39, 823292437, 13, 890770371);
  }

  lemma TestnetP2wshZerosResidue10(p: seq<byte>)
    requires WshZerosProgram(p) && |Segwit.ToWords(p)| == 52 && Residue(1029310450, Segwit.ToWords(p), 40) == 890770371
    ensures Residue(1029310450, Segwit.ToWords(p), 44) == 816917618
  {
    WshZerosWordsAt10(p);
    var ws := Segwit.ToWords(p);
    ResidueNext(1029310450, ws, 40, 890770371, 2, 302294881);
    ResidueNext(1029310450, ws, 41, 302294881, 25, 113018966);
    ResidueNext(1029310450, ws, 42, 113018966, 14, 179032849);
    ResidueNext(1029310450, ws, 43, 179032849, 26, 816917618);
  }

  lemma TestnetP2wshZerosResidue11(p: seq<byte>)
    requires WshZerosProgram(p) && |Segwit.ToWords(p)| == 52 && Residue(1029310450, Segwit.ToWords(p), 44) == 816917618
    ensures Residue(1029310450, Segwit.ToWords(p), 48) == 692484676
  {
    WshZerosWordsAt11(p);
    var ws := Segwit.ToWords(p);
    ResidueNext(1029310450, ws, 44, 816917618, 23, 24371001);
    ResidueNext(1029310450, ws, 45, 24371001, 4, 779872036);
    ResidueNext(1029310450, ws, 46, 779872036, 31, 653477385);
    ResidueNext(1029310450, ws, 47, 653477385, 8, 692484676);
  }

  lemma TestnetP2wshZerosResidue12(p: seq<byte>)
    requires WshZerosProgram(p) && |Segwit.ToWords(p)| == 52 && Residue(1029310450, Segwit.ToWords(p), 48) == 692484676
    ensures Residue(1029310450, Segwit.ToWords(p), 52) == 478625046
  {
    WshZerosWordsAt12(p);
    var ws := Segwit.ToWords(p);
    ResidueNext(1029310450, ws, 48, 692484676, 12, 477770693);
    ResidueNext(1029310450, ws, 49, 477770693, 16, 183885050);
    ResidueNext(1029310450, ws, 50, 183885050, 25, 997249297);
    ResidueNext(1029310450, ws, 51, 997249297, 16, 478625046);
  }

  /** The residue over the program's words, after the human-readable part and the version. */
  lemma TestnetP2wshZerosWordsResidue(p: seq<byte>)
    requires WshZerosProgram(p)
    ensures Bech32.PolymodFrom(1029310450, Segwit.ToWords(p)) == 478625046
  {
    WshZerosWordsAt0(p);
    var ws := Segwit.ToWords(p);
    TestnetP2wshZerosResidue0(p);
    TestnetP2wshZerosResidue1(p);
    TestnetP2wshZerosResidue2(p);
    TestnetP2wshZerosResidue3(p);
    TestnetP2wshZerosResidue4(p);
    TestnetP2wshZerosResidue5(p);
    TestnetP2wshZerosResidue6(p);
    TestnetP2wshZerosResidue7(p);
    TestnetP2wshZerosResidue8(p);
    TestnetP2wshZerosResidue9(p);
    TestnetP2wshZerosResidue10(p);
    TestnetP2wshZerosResidue11(p);
    TestnetP2wshZerosResidue12(p);
    ResidueAll(1029310450, ws);
  }

  /** The residue of the checksum input: expanded "tb", the version, the program's words, six zeros. */
  lemma TestnetP2wshZerosResidue(p: seq<byte>)
    requires WshZerosProgram(p)
    ensures Bech32.Polymod(Bech32.HrpExpand("tb") + ([0] + Segwit.ToWords(p)) + Bech32.ZeroWords(6)) == 107735781
  {
    var h, ws := Bech32.HrpExpand("tb"), Segwit.ToWords(p);
    HrpResidueTB();
    TestnetP2wshZerosWordsResidue(p);
    Bech32.PolymodAppend(1, h + ([0] + ws), Bech32.ZeroWords(6));
    Bech32.PolymodAppend(1, h, [0] + ws);
    assert ([0] + ws)[1..] == ws;
    Bech32.Unfold1(36799106, [0] + ws);
    Bech32.Unfold6(478625046, Bech32.ZeroWords(6));
  }

  lemma TestnetP2wshZerosChecksum(p: seq<byte>)
    requires WshZerosProgram(p)
    ensures Bech32.CreateChecksum("tb", [0] + Segwit.ToWords(p)) == [3, 6, 23, 26, 23, 4]
  {
    TestnetP2wshZerosResidue(p);
  }

  lemma TestnetP2wshZerosChars0(ws: seq<Bech32.u5>)
    requires |ws| == 52 && ws[0] == 0 && ws[1] == 0 && ws[2] == 0 && ws[3] == 0
    ensures Bech32.ToChars(ws)[0] == 'q' && Bech32.ToChars(ws)[1] == 'q' &&
            Bech32.ToChars(ws)[2] == 'q' && Bech32.ToChars(ws)[3] == 'q'
  {
    assert Bech32.Charset[0] == 'q'; assert Bech32.Charset[0] == 'q';
    assert Bech32.Charset[0] == 'q'; assert Bech32.Charset[0] == 'q';
  }

  lemma TestnetP2wshZerosChars1(ws: seq<Bech32.u5>)
    requires |ws| == 52 && ws[4] == 1 && ws[5] == 17 && ws[6] == 5 && ws[7] == 5
    ensures Bech32.ToChars(ws)[4] == 'p' && Bech32.ToChars(ws)[5] == '3' &&
            Bech32.ToChars(ws)[6] == '9' && Bech32.ToChars(ws)[7] == '9'
  {
    assert Bech32.Charset[1] == 'p'; assert Bech32.Charset[17] == '3';
    assert Bech32.Charset[5] == '9'; assert Bech32.Charset[5] == '9';
  }

  lemma TestnetP2wshZerosChars2(ws: seq<Bech32.u5>)
    requires |ws| == 52 && ws[8] == 25 && ws[9] == 11 && ws[10] == 10 && ws[11] == 6
    ensures Bech32.ToChars(ws)[8] == 'e' && Bech32.ToChars(ws)[9] == 't' &&
            Bech32.ToChars(ws)[10] == '2' && Bech32.ToChars(ws)[11] == 'x'
  {
    assert Bech32.Charset[25] == 'e'; assert Bech32.Charset[11] == 't';
    assert Bech32.Charset[10] == '2'; assert Bech32.Charset[6] == 'x';
  }

  lemma TestnetP2wshZerosChars3(ws: seq<Bech32.u5>)
    requires |ws| == 52 && ws[12] == 4 && ws[13] == 8 && ws[14] == 13 && ws[15] == 18
    ensures Bech32.ToChars(ws)[12] == 'y' && Bech32.ToChars(ws)[13] == 'g' &&
            Bech32.ToChars(ws)[14] == 'd' && Bech32.ToChars(ws)[15] == 'j'
  {
    assert Bech32.Charset[4] == 'y'; assert Bech32.Charset[8] == 'g';
    assert Bech32.Charset[13] == 'd'; assert Bech32.Charset[18] == 'j';
  }

  lemma TestnetP2wshZerosChars4(ws: seq<Bech32.u5>)
    requires |ws| == 52 && ws[16] == 20 && ws[17] == 6 && ws[18] == 3 && ws[19] == 25
    ensures Bech32.ToChars(ws)[16] == '5' && Bech32.ToChars(ws)[17] == 'x' &&
            Bech32.ToChars(ws)[18] == 'r' && Bech32.ToChars(ws)[19] == 'e'
  {
    assert Bech32.Charset[20] == '5'; assert Bech32.Charset[6] == 'x';
    assert Bech32.Charset[3] == 'r'; assert Bech32.Charset[25] == 'e';
  }

  lemma TestnetP2wshZerosChars5(ws: seq<Bech32.u5>)
    requires |ws| == 52 && ws[20] == 0 && ws[21] == 23 && ws[22] == 18 && ws[23] == 18
    ensures Bech32.ToChars(ws)[20] == 'q' && Bech32.ToChars(ws)[21] == 'h' &&
            Bech32.ToChars(ws)[22] == 'j' && Bech32.ToChars(ws)[23] == 'j'
  {
    assert Bech32.Charset[0] == 'q'; assert Bech32.Charset[23] == 'h';
    assert Bech32.Charset[18] == 'j'; assert Bech32.Charset[18] == 'j';
  }

  lemma TestnetP2wshZerosChars6(ws: seq<Bech32.u5>)
    requires |ws| == 52 && ws[24] == 12 && ws[25] == 24 && ws[26] == 27 && ws[27] == 2
    ensures Bech32.ToChars(ws)[24] == 'v' && Bech32.ToChars(ws)[25] == 'c' &&
            Bech32.ToChars(ws)[26] == 'm' && Bech32.ToChars(ws)[27] == 'z'
  {
    assert Bech32.Charset[12] == 'v'; assert Bech32.Charset[24] == 'c';
    assert Bech32.Charset[27] == 'm'; assert Bech32.Charset[2] == 'z';
  }

  lemma TestnetP2wshZerosChars7(ws: seq<Bech32.u5>)
    requires |ws| == 52 && ws[28] == 23 && ws[29] == 6 && ws[30] == 14 && ws[31] == 21
    ensures Bech32.ToChars(ws)[28] == 'h' && Bech32.ToChars(ws)[29] == 'x' &&
            Bech32.ToChars(ws)[30] == 'w' && Bech32.ToChars(ws)[31] == '4'
  {
    assert Bech32.Charset[23] == 'h'; assert Bech32.Charset[6] == 'x';
    assert Bech32.Charset[14] == 'w'; assert Bech32.Charset[21] == '4';
  }

  lemma TestnetP2wshZerosChars8(ws: seq<Bech32.u5>)
    requires |ws| == 52 && ws[32] == 29 && ws[33] == 4 && ws[34] == 14 && ws[35] == 6
    ensures Bech32.ToChars(ws)[32] == 'a' && Bech32.ToChars(ws)[33] == 'y' &&
            Bech32.ToChars(ws)[34] == 'w' && Bech32.ToChars(ws)[35] == 'x'
  {
    assert Bech32.Charset[29] == 'a'; assert Bech32.Charset[4] == 'y';
    assert Bech32.Charset[14] == 'w'; assert Bech32.Charset[6] == 'x';
  }

  lemma TestnetP2wshZerosChars9(ws: seq<Bech32.u5>)
    requires |ws| == 52 && ws[36] == 25 && ws[37] == 24 && ws[38] == 18 && ws[39] == 13
    ensures Bech32.ToChars(ws)[36] == 'e' && Bech32.ToChars(ws)[37] == 'c' &&
            Bech32.ToChars(ws)[38] == 'j' && Bech32.ToChars(ws)[39] == 'd'
  {
    assert Bech32.Charset[25] == 'e'; assert Bech32.Charset[24] == 'c';
    assert Bech32.Charset[18] == 'j'; assert Bech32.Charset[13] == 'd';
  }

  lemma TestnetP2wshZerosChars10(ws: seq<Bech32.u5>)
    requires |ws| == 52 && ws[40] == 2 && ws[41] == 25 && ws[42] == 14 && ws[43] == 26
    ensures Bech32.ToChars(ws)[40] == 'z' && Bech32.ToChars(ws)[41] == 'e' &&
            Bech32.ToChars(ws)[42] == 'w' && Bech32.ToChars(ws)[43] == '6'
  {
    assert Bech32.Charset[2] == 'z'; assert Bech32.Charset[25] == 'e';
    assert Bech32.Charset[14] == 'w'; assert Bech32.Charset[26] == '6';
  }

  lemma TestnetP2wshZerosChars11(ws: seq<Bech32.u5>)
    requires |ws| == 52 && ws[44] == 23 && ws[45] == 4 && ws[46] == 31 && ws[47] == 8
    ensures Bech32.ToChars(ws)[44] == 'h' && Bech32.ToChars(ws)[45] == 'y' &&
            Bech32.ToChars(ws)[46] == 'l' && Bech32.ToChars(ws)[47] == 'g'
  {
    assert Bech32.Charset[23] == 'h'; assert Bech32.Charset[4] == 'y';
    assert Bech32.Charset[31] == 'l'; assert Bech32.Charset[8] == 'g';
  }

  lemma TestnetP2wshZerosChars12(ws: seq<Bech32.u5>)
    requires |ws| == 52 && ws[48] == 12 && ws[49] == 16 && ws[50] == 25 && ws[51] == 16
    ensures Bech32.ToChars(ws)[48] == 'v' && Bech32.ToChars(ws)[49] == 's' &&
            Bech32.ToChars(ws)[50] == 'e' && Bech32.ToChars(ws)[51] == 's'
  {
    assert Bech32.Charset[12] == 'v'; assert Bech32.Charset[16] == 's';
    assert Bech32.Charset[25] == 'e'; assert Bech32.Charset[16] == 's';
  }

  lemma TestnetP2wshZerosChecksumChars(cs: seq<Bech32.u5>)
    requires cs == [3, 6, 23, 26, 23, 4]
    ensures Bech32.ToChars(cs)[0] == 'r' && Bech32.ToChars(cs)[1] == 'x' &&
            Bech32.ToChars(cs)[2] == 'h' && Bech32.ToChars(cs)[3] == '6' &&
            Bech32.ToChars(cs)[4] == 'h' && Bech32.ToChars(cs)[5] == 'y'
  {
    assert Bech32.Charset[3] == 'r'; assert Bech32.Charset[6] == 'x';
    assert Bech32.Charset[23] == 'h'; assert Bech32.Charset[26] == '6';
    assert Bech32.Charset[23] == 'h'; assert Bech32.Charset[4] == 'y';
  }

  lemma TestnetP2wshZerosAssemble0(t: string, c: string)
    requires |t| == 52 && t[0] == 'q' && t[1] == 'q' && t[2] == 'q' && t[3] == 'q' &&
             t[4] == 'p' && t[5] == '3' && t[6] == '9' && t[7] == '9' && t[8] == 'e' &&
             t[9] == 't' && t[10] == '2' && t[11] == 'x'
    requires |c| == 6
    ensures ("tb" + "1" + [Bech32.Charset[0]] + t + c)[0] == 't' &&
            ("tb" + "1" + [Bech32.Charset[0]] + t + c)[1] == 'b' &&
            ("tb" + "1" + [Bech32.Charset[0]] + t + c)[2] == '1' &&
            ("tb" + "1" + [Bech32.Charset[0]] + t + c)[3] == 'q' &&
            ("tb" + "1" + [Bech32.Charset[0]] + t + c)[4] == 'q' &&
            ("tb" + "1" + [Bech32.Charset[0]] + t + c)[5] == 'q' &&
            ("tb" + "1" + [Bech32.Charset[0]] + t + c)[6] == 'q' &&
            ("tb" + "1" + [Bech32.Charset[0]] + t + c)[7] == 'q' &&
            ("tb" + "1" + [Bech32.Charset[0]] + t + c)[8] == 'p' &&
            ("tb" + "1" + [Bech32.Charset[0]] + t + c)[9] == '3' &&
            ("tb" + "1" + [Bech32.Charset[0]] + t + c)[10] == '9' &&
            ("tb" + "1" + [Bech32.Charset[0]] + t + c)[11] == '9' &&
            ("tb" + "1" + [Bech32.Charset[0]] + t + c)[12] == 'e' &&
            ("tb" + "1" + [Bech32.Charset[0]] + t + c)[13] == 't' &&
            ("tb" + "1" + [Bech32.Charset[0]] + t + c)[14] == '2' &&
            ("tb" + "1" + [Bech32.Charset[0]] + t + c)[15] == 'x'
  {
    assert Bech32.Charset[0] == 'q';
  }

  lemma TestnetP2wshZerosAssemble1(t: string, c: string)
    requires |t| == 52 && t[12] == 'y' && t[13] == 'g' && t[14] == 'd' && t[15] == 'j' &&
             t[16] == '5' && t[17] == 'x' && t[18] == 'r' && t[19] == 'e' && t[20] == 'q' &&
             t[21] == 'h' && t[22] == 'j' && t[23] == 'j' && t[24] == 'v' && t[25] == 'c' &&
             t[26] == 'm' && t[27] == 'z'
    requires |c| == 6
    ensures ("tb" + "1" + [Bech32.Charset[0]] + t + c)[16] == 'y' &&
            ("tb" + "1" + [Bech32.Charset[0]] + t + c)[17] == 'g' &&
            ("tb" + "1" + [Bech32.Charset[0]] + t + c)[18] == 'd' &&
            ("tb" + "1" + [Bech32.Charset[0]] + t + c)[19] == 'j' &&
            ("tb" + "1" + [Bech32.Charset[0]] + t + c)[20] == '5' &&
            ("tb" + "1" + [Bech32.Charset[0]] + t + c)[21] == 'x' &&
            ("tb" + "1" + [Bech32.Charset[0]] + t + c)[22] == 'r' &&
            ("tb" + "1" + [Bech32.Charset[0]] + t + c)[23] == 'e' &&
            ("tb" + "1" + [Bech32.Charset[0]] + t + c)[24] == 'q' &&
            ("tb" + "1" + [Bech32.Charset[0]] + t + c)[25] == 'h' &&
            ("tb" + "1" + [Bech32.Charset[0]] + t + c)[26] == 'j' &&
            ("tb" + "1" + [Bech32.Charset[0]] + t + c)[27] == 'j' &&
            ("tb" + "1" + [Bech32.Charset[0]] + t + c)[28] == 'v' &&
            ("tb" + "1" + [Bech32.Charset[0]] + t + c)[29] == 'c' &&
            ("tb" + "1" + [Bech32.Charset[0]] + t + c)[30] == 'm' &&
            ("tb" + "1" + [Bech32.Charset[0]] + t + c)[31] == 'z'
  {
  }

  lemma TestnetP2wshZerosAssemble2(t: string, c: string)
    requires |t| == 52 && t[28] == 'h' && t[29] == 'x' && t[30] == 'w' && t[31] == '4' &&
             t[32] == 'a' && t[33] == 'y' && t[34] == 'w' && t[35] == 'x' && t[36] == 'e' &&
             t[37] == 'c' && t[38] == 'j' && t[39] == 'd' && t[40] == 'z' && t[41] == 'e' &&
             t[42] == 'w' && t[43] == '6'
    requires |c| == 6
    ensures ("tb" + "1" + [Bech32.Charset[0]] + t + c)[32] == 'h' &&
            ("tb" + "1" + [Bech32.Charset[0]] + t + c)[33] == 'x' &&
            ("tb" + "1" + [Bech32.Charset[0]] + t + c)[34] == 'w' &&
            ("tb" + "1" + [Bech32.Charset[0]] + t + c)[35] == '4' &&
            ("tb" + "1" + [Bech32.Charset[0]] + t + c)[36] == 'a' &&
            ("tb" + "1" + [Bech32.Charset[0]] + t + c)[37] == 'y' &&
            ("tb" + "1" + [Bech32.Charset[0]] + t + c)[38] == 'w' &&
            ("tb" + "1" + [Bech32.Charset[0]] + t + c)[39] == 'x' &&
            ("tb" + "1" + [Bech32.Charset[0]] + t + c)[40] == 'e' &&
            ("tb" + "1" + [Bech32.Charset[0]] + t + c)[41] == 'c' &&
            ("tb" + "1" + [Bech32.Charset[0]] + t + c)[42] == 'j' &&
            ("tb" + "1" + [Bech32.Charset[0]] + t + c)[43] == 'd' &&
            ("tb" + "1" + [Bech32.Charset[0]] + t + c)[44] == 'z' &&
            ("tb" + "1" + [Bech32.Charset[0]] + t + c)[45] == 'e' &&
            ("tb" + "1" + [Bech32.Charset[0]] + t + c)[46] == 'w' &&
            ("tb" + "1" + [Bech32.Charset[0]] + t + c)[47] == '6'
  {
  }

  lemma TestnetP2wshZerosAssemble3(t: string, c: string)
    requires |t| == 52 && t[44] == 'h' && t[45] == 'y' && t[46] == 'l' && t[47] == 'g' &&
             t[48] == 'v' && t[49] == 's' && t[50] == 'e' && t[51] == 's'
    requires |c| == 6 && c[0] == 'r' && c[1] == 'x' && c[2] == 'h' && c[3] == '6' && c[4] == 'h' &&
             c[5] == 'y'
    ensures ("tb" + "1" + [Bech32.Charset[0]] + t + c)[48] == 'h' &&
            ("tb" + "1" + [Bech32.Charset[0]] + t + c)[49] == 'y' &&
            ("tb" + "1" + [Bech32.Charset[0]] + t + c)[50] == 'l' &&
            ("tb" + "1" + [Bech32.Charset[0]] + t + c)[51] == 'g' &&
            ("tb" + "1" + [Bech32.Charset[0]] + t + c)[52] == 'v' &&
            ("tb" + "1" + [Bech32.Charset[0]] + t + c)[53] == 's' &&
            ("tb" + "1" + [Bech32.Charset[0]] + t + c)[54] == 'e' &&
            ("tb" + "1" + [Bech32.Charset[0]] + t + c)[55] == 's' &&
            ("tb" + "1" + [Bech32.Charset[0]] + t + c)[56] == 'r' &&
            ("tb" + "1" + [Bech32.Charset[0]] + t + c)[57] == 'x' &&
            ("tb" + "1" + [Bech32.Charset[0]] + t + c)[58] == 'h' &&
            ("tb" + "1" + [Bech32.Charset[0]] + t + c)[59] == '6' &&
            ("tb" + "1" + [Bech32.Charset[0]] + t + c)[60] == 'h' &&
            ("tb" + "1" + [Bech32.Charset[0]] + t + c)[61] == 'y'
  {
  }

  lemma TestnetP2wshZerosLiteral()
    ensures "tb1qqqqqp399et2xygdj5xreqhjjvcm" + "zhxw4aywxecjdzew6hylgvsesrxh6hy" == "tb1qqqqqp399et2xygdj5xreqhjjvcmzhxw4aywxecjdzew6hylgvsesrxh6hy"
  {}

  lemma TestnetP2wshZerosGlue(e: string)
    requires |e| == 62 && e[0] == 't' && e[1] == 'b' && e[2] == '1' && e[3] == 'q' &&
             e[4] == 'q' && e[5] == 'q' && e[6] == 'q' && e[7] == 'q' && e[8] == 'p' &&
             e[9] == '3' && e[10] == '9' && e[11] == '9' && e[12] == 'e' && e[13] == 't' &&
             e[14] == '2' && e[15] == 'x' && e[16] == 'y' && e[17] == 'g' && e[18] == 'd' &&
             e[19] == 'j' && e[20] == '5' && e[21] == 'x' && e[22] == 'r' && e[23] == 'e' &&
             e[24] == 'q' && e[25] == 'h' && e[26] == 'j' && e[27] == 'j' && e[28] == 'v' &&
             e[29] == 'c' && e[30] == 'm' && e[31] == 'z' && e[32] == 'h' && e[33] == 'x' &&
             e[34] == 'w' && e[35] == '4' && e[36] == 'a' && e[37] == 'y' && e[38] == 'w' &&
             e[39] == 'x' && e[40] == 'e' && e[41] == 'c' && e[42] == 'j' && e[43] == 'd' &&
             e[44] == 'z' && e[45] == 'e' && e[46] == 'w' && e[47] == '6' && e[48] == 'h' &&
             e[49] == 'y' && e[50] == 'l' && e[51] == 'g' && e[52] == 'v' && e[53] == 's' &&
             e[54] == 'e' && e[55] == 's' && e[56] == 'r' && e[57] == 'x' && e[58] == 'h' &&
             e[59] == '6' && e[60] == 'h' && e[61] == 'y'
    ensures e == "tb1qqqqqp399et2xygdj5xreqhjjvcmzhxw4aywxecjdzew6hylgvsesrxh6hy"
  {
    TestnetP2wshZerosLiteral();
    assert e == "tb1qqqqqp399et2xygdj5xreqhjjvcm" + "zhxw4aywxecjdzew6hylgvsesrxh6hy";
  }

  lemma TestnetP2wshZerosAssemble(t: string, c: string)
    requires |t| == 52 && t[0] == 'q' && t[1] == 'q' && t[2] == 'q' && t[3] == 'q' &&
             t[4] == 'p' && t[5] == '3' && t[6] == '9' && t[7] == '9' && t[8] == 'e' &&
             t[9] == 't' && t[10] == '2' && t[11] == 'x' && t[12] == 'y' && t[13] == 'g' &&
             t[14] == 'd' && t[15] == 'j' && t[16] == '5' && t[17] == 'x' && t[18] == 'r' &&
             t[19] == 'e' && t[20] == 'q' && t[21] == 'h' && t[22] == 'j' && t[23] == 'j' &&
             t[24] == 'v' && t[25] == 'c' && t[26] == 'm' && t[27] == 'z' && t[28] == 'h' &&
             t[29] == 'x' && t[30] == 'w' && t[31] == '4' && t[32] == 'a' && t[33] == 'y' &&
             t[34] == 'w' && t[35] == 'x' && t[36] == 'e' && t[37] == 'c' && t[38] == 'j' &&
             t[39] == 'd' && t[40] == 'z' && t[41] == 'e' && t[42] == 'w' && t[43] == '6' &&
             t[44] == 'h' && t[45] == 'y' && t[46] == 'l' && t[47] == 'g' && t[48] == 'v' &&
             t[49] == 's' && t[50] == 'e' && t[51] == 's'
    requires |c| == 6 && c[0] == 'r' && c[1] == 'x' && c[2] == 'h' && c[3] == '6' && c[4] == 'h' &&
             c[5] == 'y'
    ensures "tb" + "1" + [Bech32.Charset[0]] + t + c == "tb1qqqqqp399et2xygdj5xreqhjjvcmzhxw4aywxecjdzew6hylgvsesrxh6hy"
  {
    TestnetP2wshZerosAssemble0(t, c);
    TestnetP2wshZerosAssemble1(t, c);
    TestnetP2wshZerosAssemble2(t, c);
    TestnetP2wshZerosAssemble3(t, c);
    TestnetP2wshZerosGlue("tb" + "1" + [Bech32.Charset[0]] + t + c);
  }

  lemma TestnetP2wshZerosProgramChars(ws: seq<Bech32.u5>)
    requires |ws| == 52 && ws[0] == 0 && ws[1] == 0 && ws[2] == 0 && ws[3] == 0 && ws[4] == 1 &&
             ws[5] == 17 && ws[6] == 5 && ws[7] == 5 && ws[8] == 25 && ws[9] == 11 &&
             ws[10] == 10 && ws[11] == 6 && ws[12] == 4 && ws[13] == 8 && ws[14] == 13 &&
             ws[15] == 18 && ws[16] == 20 && ws[17] == 6 && ws[18] == 3 && ws[19] == 25 &&
             ws[20] == 0 && ws[21] == 23 && ws[22] == 18 && ws[23] == 18 && ws[24] == 12 &&
             ws[25] == 24 && ws[26] == 27 && ws[27] == 2 && ws[28] == 23 && ws[29] == 6 &&
             ws[30] == 14 && ws[31] == 21 && ws[32] == 29 && ws[33] == 4 && ws[34] == 14 &&
             ws[35] == 6 && ws[36] == 25 && ws[37] == 24 && ws[38] == 18 && ws[39] == 13 &&
             ws[40] == 2 && ws[41] == 25 && ws[42] == 14 && ws[43] == 26 && ws[44] == 23 &&
             ws[45] == 4 && ws[46] == 31 && ws[47] == 8 && ws[48] == 12 && ws[49] == 16 &&
             ws[50] == 25 && ws[51] == 16
    ensures |Bech32.ToChars(ws)| == 52
    ensures Bech32.ToChars(ws)[0] == 'q' && Bech32.ToChars(ws)[1] == 'q' &&
            Bech32.ToChars(ws)[2] == 'q' && Bech32.ToChars(ws)[3] == 'q' &&
            Bech32.ToChars(ws)[4] == 'p' && Bech32.ToChars(ws)[5] == '3' &&
            Bech32.ToChars(ws)[6] == '9' && Bech32.ToChars(ws)[7] == '9' &&
            Bech32.ToChars(ws)[8] == 'e' && Bech32.ToChars(ws)[9] == 't' &&
            Bech32.ToChars(ws)[10] == '2' && Bech32.ToChars(ws)[11] == 'x' &&
            Bech32.ToChars(ws)[12] == 'y' && Bech32.ToChars(ws)[13] == 'g' &&
            Bech32.ToChars(ws)[14] == 'd' && Bech32.ToChars(ws)[15] == 'j' &&
            Bech32.ToChars(ws)[16] == '5' && Bech32.ToChars(ws)[17] == 'x' &&
            Bech32.ToChars(ws)[18] == 'r' && Bech32.ToChars(ws)[19] == 'e' &&
            Bech32.ToChars(ws)[20] == 'q' && Bech32.ToChars(ws)[21] == 'h' &&
            Bech32.ToChars(ws)[22] == 'j' && Bech32.ToChars(ws)[23] == 'j' &&
            Bech32.ToChars(ws)[24] == 'v' && Bech32.ToChars(ws)[25] == 'c' &&
            Bech32.ToChars(ws)[26] == 'm' && Bech32.ToChars(ws)[27] == 'z' &&
            Bech32.ToChars(ws)[28] == 'h' && Bech32.ToChars(ws)[29] == 'x' &&
            Bech32.ToChars(ws)[30] == 'w' && Bech32.ToChars(ws)[31] == '4' &&
            Bech32.ToChars(ws)[32] == 'a' && Bech32.ToChars(ws)[33] == 'y' &&
            Bech32.ToChars(ws)[34] == 'w' && Bech32.ToChars(ws)[35] == 'x' &&
            Bech32.ToChars(ws)[36] == 'e' && Bech32.ToChars(ws)[37] == 'c' &&
            Bech32.ToChars(ws)[38] == 'j' && Bech32.ToChars(ws)[39] == 'd' &&
            Bech32.ToChars(ws)[40] == 'z' && Bech32.ToChars(ws)[41] == 'e' &&
            Bech32.ToChars(ws)[42] == 'w' && Bech32.ToChars(ws)[43] == '6' &&
            Bech32.ToChars(ws)[44] == 'h' && Bech32.ToChars(ws)[45] == 'y' &&
            Bech32.ToChars(ws)[46] == 'l' && Bech32.ToChars(ws)[47] == 'g' &&
            Bech32.ToChars(ws)[48] == 'v' && Bech32.ToChars(ws)[49] == 's' &&
            Bech32.ToChars(ws)[50] == 'e' && Bech32.ToChars(ws)[51] == 's'
  {
    TestnetP2wshZerosChars0(ws);
    TestnetP2wshZerosChars1(ws);
    TestnetP2wshZerosChars2(ws);
    TestnetP2wshZerosChars3(ws);
    TestnetP2wshZerosChars4(ws);
    TestnetP2wshZerosChars5(ws);
    TestnetP2wshZerosChars6(ws);
    TestnetP2wshZerosChars7(ws);
    TestnetP2wshZerosChars8(ws);
    TestnetP2wshZerosChars9(ws);
    TestnetP2wshZerosChars10(ws);
    TestnetP2wshZerosChars11(ws);
    TestnetP2wshZerosChars12(ws);
  }

  lemma TestnetP2wshZerosWordChars(p: seq<byte>)
    requires WshZerosProgram(p)
    ensures |Bech32.ToChars(Segwit.ToWords(p))| == 52
    ensures Bech32.ToChars(Segwit.ToWords(p))[0] == 'q' &&
            Bech32.ToChars(Segwit.ToWords(p))[1] == 'q' &&
            Bech32.ToChars(Segwit.ToWords(p))[2] == 'q' &&
            Bech32.ToChars(Segwit.ToWords(p))[3] == 'q' &&
            Bech32.ToChars(Segwit.ToWords(p))[4] == 'p' &&
            Bech32.ToChars(Segwit.ToWords(p))[5] == '3' &&
            Bech32.ToChars(Segwit.ToWords(p))[6] == '9' &&
            Bech32.ToChars(Segwit.ToWords(p))[7] == '9' &&
            Bech32.ToChars(Segwit.ToWords(p))[8] == 'e' &&
            Bech32.ToChars(Segwit.ToWords(p))[9] == 't' &&
            Bech32.ToChars(Segwit.ToWords(p))[10] == '2' &&
            Bech32.ToChars(Segwit.ToWords(p))[11] == 'x' &&
            Bech32.ToChars(Segwit.ToWords(p))[12] == 'y' &&
            Bech32.ToChars(Segwit.ToWords(p))[13] == 'g' &&
            Bech32.ToChars(Segwit.ToWords(p))[14] == 'd' &&
            Bech32.ToChars(Segwit.ToWords(p))[15] == 'j' &&
            Bech32.ToChars(Segwit.ToWords(p))[16] == '5' &&
            Bech32.ToChars(Segwit.ToWords(p))[17] == 'x' &&
            Bech32.ToChars(Segwit.ToWords(p))[18] == 'r' &&
            Bech32.ToChars(Segwit.ToWords(p))[19] == 'e' &&
            Bech32.ToChars(Segwit.ToWords(p))[20] == 'q' &&
            Bech32.ToChars(Segwit.ToWords(p))[21] == 'h' &&
            Bech32.ToChars(Segwit.ToWords(p))[22] == 'j' &&
            Bech32.ToChars(Segwit.ToWords(p))[23] == 'j' &&
            Bech32.ToChars(Segwit.ToWords(p))[24] == 'v' &&
            Bech32.ToChars(Segwit.ToWords(p))[25] == 'c' &&
            Bech32.ToChars(Segwit.ToWords(p))[26] == 'm' &&
            Bech32.ToChars(Segwit.ToWords(p))[27] == 'z' &&
            Bech32.ToChars(Segwit.ToWords(p))[28] == 'h' &&
            Bech32.ToChars(Segwit.ToWords(p))[29] == 'x' &&
            Bech32.ToChars(Segwit.ToWords(p))[30] == 'w' &&
            Bech32.ToChars(Segwit.ToWords(p))[31] == '4' &&
            Bech32.ToChars(Segwit.ToWords(p))[32] == 'a' &&
            Bech32.ToChars(Segwit.ToWords(p))[33] == 'y' &&
            Bech32.ToChars(Segwit.ToWords(p))[34] == 'w' &&
            Bech32.ToChars(Segwit.ToWords(p))[35] == 'x' &&
            Bech32.ToChars(Segwit.ToWords(p))[36] == 'e' &&
            Bech32.ToChars(Segwit.ToWords(p))[37] == 'c' &&
            Bech32.ToChars(Segwit.ToWords(p))[38] == 'j' &&
            Bech32.ToChars(Segwit.ToWords(p))[39] == 'd' &&
            Bech32.ToChars(Segwit.ToWords(p))[40] == 'z' &&
            Bech32.ToChars(Segwit.ToWords(p))[41] == 'e' &&
            Bech32.ToChars(Segwit.ToWords(p))[42] == 'w' &&
            Bech32.ToChars(Segwit.ToWords(p))[43] == '6' &&
            Bech32.ToChars(Segwit.ToWords(p))[44] == 'h' &&
            Bech32.ToChars(Segwit.ToWords(p))[45] == 'y' &&
            Bech32.ToChars(Segwit.ToWords(p))[46] == 'l' &&
            Bech32.ToChars(Segwit.ToWords(p))[47] == 'g' &&
            Bech32.ToChars(Segwit.ToWords(p))[48] == 'v' &&
            Bech32.ToChars(Segwit.ToWords(p))[49] == 's' &&
            Bech32.ToChars(Segwit.ToWords(p))[50] == 'e' &&
            Bech32.ToChars(Segwit.ToWords(p))[51] == 's'
  {
    WshZerosWordsAt0(p);
    WshZerosWordsAt1(p);
    WshZerosWordsAt2(p);
    WshZerosWordsAt3(p);
    WshZerosWordsAt4(p);
    WshZerosWordsAt5(p);
    WshZerosWordsAt6(p);
    WshZerosWordsAt7(p);
    WshZerosWordsAt8(p);
    WshZerosWordsAt9(p);
    WshZerosWordsAt10(p);
    WshZerosWordsAt11(p);
    WshZerosWordsAt12(p);
    TestnetP2wshZerosProgramChars(Segwit.ToWords(p));
  }

  /** The text of the address, assembled from its characters. */
  lemma TestnetP2wshZerosText(p: seq<byte>)
    requires WshZerosProgram(p)
    ensures Segwit.Encode("tb", 0, p) == "tb1qqqqqp399et2xygdj5xreqhjjvcmzhxw4aywxecjdzew6hylgvsesrxh6hy"
  {
    var ws := Segwit.ToWords(p);
    var cs := Bech32.CreateChecksum("tb", [0] + ws);
    EncodeParts("tb", 0, p);
    TestnetP2wshZerosWordChars(p);
    TestnetP2wshZerosChecksum(p);
    TestnetP2wshZerosChecksumChars(cs);
    TestnetP2wshZerosAssemble(Bech32.ToChars(ws), Bech32.ToChars(cs));
  }

  /** test/address-test.js:121-130. */
  lemma TestnetP2wshZeros(hash: Base58Check.Hasher, p: seq<byte>)
    requires WshZerosProgram(p)
    ensures Address.FromWitnessScripthash(p, "testnet") == Ok(Address.Address(Address.Witness(0), p, Networks.Testnet))
    ensures Address.ToString(hash, Address.Address(Address.Witness(0), p, Networks.Testnet)) == "tb1qqqqqp399et2xygdj5xreqhjjvcmzhxw4aywxecjdzew6hylgvsesrxh6hy"
  {
    TestnetP2wshZerosText(p);
  }

}
