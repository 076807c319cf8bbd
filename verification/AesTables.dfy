/** AES as aes.c implements it: tables, round steps on a 4 x 4 state, key schedules. */
module AesTables {

  /** S, by the high and the low half of the index. */
  function STable(h: nat, l: nat): nat {
    match h
    case 0 => (match l
      case 0 => 0x63 case 1 => 0x7c case 2 => 0x77 case 3 => 0x7b case 4 => 0xf2 case 5 => 0x6b
      case 6 => 0x6f case 7 => 0xc5 case 8 => 0x30 case 9 => 0x01 case 10 => 0x67 case 11 => 0x2b
      case 12 => 0xfe case 13 => 0xd7 case 14 => 0xab case 15 => 0x76 case _ => 0)
    case 1 => (match l
      case 0 => 0xca case 1 => 0x82 case 2 => 0xc9 case 3 => 0x7d case 4 => 0xfa case 5 => 0x59
      case 6 => 0x47 case 7 => 0xf0 case 8 => 0xad case 9 => 0xd4 case 10 => 0xa2 case 11 => 0xaf
      case 12 => 0x9c case 13 => 0xa4 case 14 => 0x72 case 15 => 0xc0 case _ => 0)
    case 2 => (match l
      case 0 => 0xb7 case 1 => 0xfd case 2 => 0x93 case 3 => 0x26 case 4 => 0x36 case 5 => 0x3f
      case 6 => 0xf7 case 7 => 0xcc case 8 => 0x34 case 9 => 0xa5 case 10 => 0xe5 case 11 => 0xf1
      case 12 => 0x71 case 13 => 0xd8 case 14 => 0x31 case 15 => 0x15 case _ => 0)
    case 3 => (match l
      case 0 => 0x04 case 1 => 0xc7 case 2 => 0x23 case 3 => 0xc3 case 4 => 0x18 case 5 => 0x96
      case 6 => 0x05 case 7 => 0x9a case 8 => 0x07 case 9 => 0x12 case 10 => 0x80 case 11 => 0xe2
      case 12 => 0xeb case 13 => 0x27 case 14 => 0xb2 case 15 => 0x75 case _ => 0)
    case 4 => (match l
      case 0 => 0x09 case 1 => 0x83 case 2 => 0x2c case 3 => 0x1a case 4 => 0x1b case 5 => 0x6e
      case 6 => 0x5a case 7 => 0xa0 case 8 => 0x52 case 9 => 0x3b case 10 => 0xd6 case 11 => 0xb3
      case 12 => 0x29 case 13 => 0xe3 case 14 => 0x2f case 15 => 0x84 case _ => 0)
    case 5 => (match l
      case 0 => 0x53 case 1 => 0xd1 case 2 => 0x00 case 3 => 0xed case 4 => 0x20 case 5 => 0xfc
      case 6 => 0xb1 case 7 => 0x5b case 8 => 0x6a case 9 => 0xcb case 10 => 0xbe case 11 => 0x39
      case 12 => 0x4a case 13 => 0x4c case 14 => 0x58 case 15 => 0xcf case _ => 0)
    case 6 => (match l
      case 0 => 0xd0 case 1 => 0xef case 2 => 0xaa case 3 => 0xfb case 4 => 0x43 case 5 => 0x4d
      case 6 => 0x33 case 7 => 0x85 case 8 => 0x45 case 9 => 0xf9 case 10 => 0x02 case 11 => 0x7f
      case 12 => 0x50 case 13 => 0x3c case 14 => 0x9f case 15 => 0xa8 case _ => 0)
    case 7 => (match l
      case 0 => 0x51 case 1 => 0xa3 case 2 => 0x40 case 3 => 0x8f case 4 => 0x92 case 5 => 0x9d
      case 6 => 0x38 case 7 => 0xf5 case 8 => 0xbc case 9 => 0xb6 case 10 => 0xda case 11 => 0x21
      case 12 => 0x10 case 13 => 0xff case 14 => 0xf3 case 15 => 0xd2 case _ => 0)
    case 8 => (match l
      case 0 => 0xcd case 1 => 0x0c case 2 => 0x13 case 3 => 0xec case 4 => 0x5f case 5 => 0x97
      case 6 => 0x44 case 7 => 0x17 case 8 => 0xc4 case 9 => 0xa7 case 10 => 0x7e case 11 => 0x3d
      case 12 => 0x64 case 13 => 0x5d case 14 => 0x19 case 15 => 0x73 case _ => 0)
    case 9 => (match l
      case 0 => 0x60 case 1 => 0x81 case 2 => 0x4f case 3 => 0xdc case 4 => 0x22 case 5 => 0x2a
      case 6 => 0x90 case 7 => 0x88 case 8 => 0x46 case 9 => 0xee case 10 => 0xb8 case 11 => 0x14
      case 12 => 0xde case 13 => 0x5e case 14 => 0x0b case 15 => 0xdb case _ => 0)
    case 10 => (match l
      case 0 => 0xe0 case 1 => 0x32 case 2 => 0x3a case 3 => 0x0a case 4 => 0x49 case 5 => 0x06
      case 6 => 0x24 case 7 => 0x5c case 8 => 0xc2 case 9 => 0xd3 case 10 => 0xac case 11 => 0x62
      case 12 => 0x91 case 13 => 0x95 case 14 => 0xe4 case 15 => 0x79 case _ => 0)
    case 11 => (match l
      case 0 => 0xe7 case 1 => 0xc8 case 2 => 0x37 case 3 => 0x6d case 4 => 0x8d case 5 => 0xd5
      case 6 => 0x4e case 7 => 0xa9 case 8 => 0x6c case 9 => 0x56 case 10 => 0xf4 case 11 => 0xea
      case 12 => 0x65 case 13 => 0x7a case 14 => 0xae case 15 => 0x08 case _ => 0)
    case 12 => (match l
      case 0 => 0xba case 1 => 0x78 case 2 => 0x25 case 3 => 0x2e case 4 => 0x1c case 5 => 0xa6
      case 6 => 0xb4 case 7 => 0xc6 case 8 => 0xe8 case 9 => 0xdd case 10 => 0x74 case 11 => 0x1f
      case 12 => 0x4b case 13 => 0xbd case 14 => 0x8b case 15 => 0x8a case _ => 0)
    case 13 => (match l
      case 0 => 0x70 case 1 => 0x3e case 2 => 0xb5 case 3 => 0x66 case 4 => 0x48 case 5 => 0x03
      case 6 => 0xf6 case 7 => 0x0e case 8 => 0x61 case 9 => 0x35 case 10 => 0x57 case 11 => 0xb9
      case 12 => 0x86 case 13 => 0xc1 case 14 => 0x1d case 15 => 0x9e case _ => 0)
    case 14 => (match l
      case 0 => 0xe1 case 1 => 0xf8 case 2 => 0x98 case 3 => 0x11 case 4 => 0x69 case 5 => 0xd9
      case 6 => 0x8e case 7 => 0x94 case 8 => 0x9b case 9 => 0x1e case 10 => 0x87 case 11 => 0xe9
      case 12 => 0xce case 13 => 0x55 case 14 => 0x28 case 15 => 0xdf case _ => 0)
    case 15 => (match l
      case 0 => 0x8c case 1 => 0xa1 case 2 => 0x89 case 3 => 0x0d case 4 => 0xbf case 5 => 0xe6
      case 6 => 0x42 case 7 => 0x68 case 8 => 0x41 case 9 => 0x99 case 10 => 0x2d case 11 => 0x0f
      case 12 => 0xb0 case 13 => 0x54 case 14 => 0xbb case 15 => 0x16 case _ => 0)
    case _ => 0
  }

  /** S_inv, by the high and the low half of the index. */
  function SInvTable(h: nat, l: nat): nat {
    match h
    case 0 => (match l
      case 0 => 0x52 case 1 => 0x09 case 2 => 0x6a case 3 => 0xd5 case 4 => 0x30 case 5 => 0x36
      case 6 => 0xa5 case 7 => 0x38 case 8 => 0xbf case 9 => 0x40 case 10 => 0xa3 case 11 => 0x9e
      case 12 => 0x81 case 13 => 0xf3 case 14 => 0xd7 case 15 => 0xfb case _ => 0)
    case 1 => (match l
      case 0 => 0x7c case 1 => 0xe3 case 2 => 0x39 case 3 => 0x82 case 4 => 0x9b case 5 => 0x2f
      case 6 => 0xff case 7 => 0x87 case 8 => 0x34 case 9 => 0x8e case 10 => 0x43 case 11 => 0x44
      case 12 => 0xc4 case 13 => 0xde case 14 => 0xe9 case 15 => 0xcb case _ => 0)
    case 2 => (match l
      case 0 => 0x54 case 1 => 0x7b case 2 => 0x94 case 3 => 0x32 case 4 => 0xa6 case 5 => 0xc2
      case 6 => 0x23 case 7 => 0x3d case 8 => 0xee case 9 => 0x4c case 10 => 0x95 case 11 => 0x0b
      case 12 => 0x42 case 13 => 0xfa case 14 => 0xc3 case 15 => 0x4e case _ => 0)
    case 3 => (match l
      case 0 => 0x08 case 1 => 0x2e case 2 => 0xa1 case 3 => 0x66 case 4 => 0x28 case 5 => 0xd9
      case 6 => 0x24 case 7 => 0xb2 case 8 => 0x76 case 9 => 0x5b case 10 => 0xa2 case 11 => 0x49
      case 12 => 0x6d case 13 => 0x8b case 14 => 0xd1 case 15 => 0x25 case _ => 0)
    case 4 => (match l
      case 0 => 0x72 case 1 => 0xf8 case 2 => 0xf6 case 3 => 0x64 case 4 => 0x86 case 5 => 0x68
      case 6 => 0x98 case 7 => 0x16 case 8 => 0xd4 case 9 => 0xa4 case 10 => 0x5c case 11 => 0xcc
      case 12 => 0x5d case 13 => 0x65 case 14 => 0xb6 case 15 => 0x92 case _ => 0)
    case 5 => (match l
      case 0 => 0x6c case 1 => 0x70 case 2 => 0x48 case 3 => 0x50 case 4 => 0xfd case 5 => 0xed
      case 6 => 0xb9 case 7 => 0xda case 8 => 0x5e case 9 => 0x15 case 10 => 0x46 case 11 => 0x57
      case 12 => 0xa7 case 13 => 0x8d case 14 => 0x9d case 15 => 0x84 case _ => 0)
    case 6 => (match l
      case 0 => 0x90 case 1 => 0xd8 case 2 => 0xab case 3 => 0x00 case 4 => 0x8c case 5 => 0xbc
      case 6 => 0xd3 case 7 => 0x0a case 8 => 0xf7 case 9 => 0xe4 case 10 => 0x58 case 11 => 0x05
      case 12 => 0xb8 case 13 => 0xb3 case 14 => 0x45 case 15 => 0x06 case _ => 0)
    case 7 => (match l
      case 0 => 0xd0 case 1 => 0x2c case 2 => 0x1e case 3 => 0x8f case 4 => 0xca case 5 => 0x3f
      case 6 => 0x0f case 7 => 0x02 case 8 => 0xc1 case 9 => 0xaf case 10 => 0xbd case 11 => 0x03
      case 12 => 0x01 case 13 => 0x13 case 14 => 0x8a case 15 => 0x6b case _ => 0)
    case 8 => (match l
      case 0 => 0x3a case 1 => 0x91 case 2 => 0x11 case 3 => 0x41 case 4 => 0x4f case 5 => 0x67
      case 6 => 0xdc case 7 => 0xea case 8 => 0x97 case 9 => 0xf2 case 10 => 0xcf case 11 => 0xce
      case 12 => 0xf0 case 13 => 0xb4 case 14 => 0xe6 case 15 => 0x73 case _ => 0)
    case 9 => (match l
      case 0 => 0x96 case 1 => 0xac case 2 => 0x74 case 3 => 0x22 case 4 => 0xe7 case 5 => 0xad
      case 6 => 0x35 case 7 => 0x85 case 8 => 0xe2 case 9 => 0xf9 case 10 => 0x37 case 11 => 0xe8
      case 12 => 0x1c case 13 => 0x75 case 14 => 0xdf case 15 => 0x6e case _ => 0)
    case 10 => (match l
      case 0 => 0x47 case 1 => 0xf1 case 2 => 0x1a case 3 => 0x71 case 4 => 0x1d case 5 => 0x29
      case 6 => 0xc5 case 7 => 0x89 case 8 => 0x6f case 9 => 0xb7 case 10 => 0x62 case 11 => 0x0e
      case 12 => 0xaa case 13 => 0x18 case 14 => 0xbe case 15 => 0x1b case _ => 0)
    case 11 => (match l
      case 0 => 0xfc case 1 => 0x56 case 2 => 0x3e case 3 => 0x4b case 4 => 0xc6 case 5 => 0xd2
      case 6 => 0x79 case 7 => 0x20 case 8 => 0x9a case 9 => 0xdb case 10 => 0xc0 case 11 => 0xfe
      case 12 => 0x78 case 13 => 0xcd case 14 => 0x5a case 15 => 0xf4 case _ => 0)
    case 12 => (match l
      case 0 => 0x1f case 1 => 0xdd case 2 => 0xa8 case 3 => 0x33 case 4 => 0x88 case 5 => 0x07
      case 6 => 0xc7 case 7 => 0x31 case 8 => 0xb1 case 9 => 0x12 case 10 => 0x10 case 11 => 0x59
      case 12 => 0x27 case 13 => 0x80 case 14 => 0xec case 15 => 0x5f case _ => 0)
    case 13 => (match l
      case 0 => 0x60 case 1 => 0x51 case 2 => 0x7f case 3 => 0xa9 case 4 => 0x19 case 5 => 0xb5
      case 6 => 0x4a case 7 => 0x0d case 8 => 0x2d case 9 => 0xe5 case 10 => 0x7a case 11 => 0x9f
      case 12 => 0x93 case 13 => 0xc9 case 14 => 0x9c case 15 => 0xef case _ => 0)
    case 14 => (match l
      case 0 => 0xa0 case 1 => 0xe0 case 2 => 0x3b case 3 => 0x4d case 4 => 0xae case 5 => 0x2a
      case 6 => 0xf5 case 7 => 0xb0 case 8 => 0xc8 case 9 => 0xeb case 10 => 0xbb case 11 => 0x3c
      case 12 => 0x83 case 13 => 0x53 case 14 => 0x99 case 15 => 0x61 case _ => 0)
    case 15 => (match l
      case 0 => 0x17 case 1 => 0x2b case 2 => 0x04 case 3 => 0x7e case 4 => 0xba case 5 => 0x77
      case 6 => 0xd6 case 7 => 0x26 case 8 => 0xe1 case 9 => 0x69 case 10 => 0x14 case 11 => 0x63
      case 12 => 0x55 case 13 => 0x21 case 14 => 0x0c case 15 => 0x7d case _ => 0)
    case _ => 0
  }

  lemma TablesInverse0(h: nat, l: nat)
    requires 0 <= h < 4 && l < 16
    ensures STable(h, l) < 256 && SInvTable(STable(h, l) / 16, STable(h, l) % 16) == 16 * h + l
  {
  }

  lemma TablesInverse1(h: nat, l: nat)
    requires 4 <= h < 8 && l < 16
    ensures STable(h, l) < 256 && SInvTable(STable(h, l) / 16, STable(h, l) % 16) == 16 * h + l
  {
  }

  lemma TablesInverse2(h: nat, l: nat)
    requires 8 <= h < 12 && l < 16
    ensures STable(h, l) < 256 && SInvTable(STable(h, l) / 16, STable(h, l) % 16) == 16 * h + l
  {
  }

  lemma TablesInverse3(h: nat, l: nat)
    requires 12 <= h < 16 && l < 16
    ensures STable(h, l) < 256 && SInvTable(STable(h, l) / 16, STable(h, l) % 16) == 16 * h + l
  {
  }
}
