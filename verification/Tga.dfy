/** The run-length packer of TGA scanlines, and its round trip through an unpacker. */
module Tga {
  import opened Bits
  import opened Wrappers

  /** One pixel: 1 to 4 bytes, as in the source image. */
  type Pixel = seq<Byte>

  predicate PixelsOf(row: seq<Pixel>, comp: nat) {
    1 <= comp <= 4 && forall i :: 0 <= i < |row| ==> |row[i]| == comp
  }

  /** A pixel as written: blue first, alpha last. */
  function Written(px: Pixel): (b: seq<Byte>)
    requires 1 <= |px| <= 4
    ensures |b| == |px| && (|px| <= 2 ==> b == px)
    ensures |px| >= 3 ==> b[0] == px[2] && b[1] == px[1] && b[2] == px[0]
    ensures |px| == 4 ==> b[3] == px[3]
  {
    if |px| >= 3 then [px[2], px[1], px[0]] + px[3..] else px
  }

  // ----- the unpacker

  function Repeat(px: Pixel, n: nat): (r: seq<Pixel>)
    ensures |r| == n
  {
    seq(n, _ => px)
  }

  function ReadPixels(b: seq<Byte>, comp: nat, n: nat): (r: seq<Pixel>)
    requires 1 <= comp <= 4 && |b| >= n * comp
    ensures |r| == n
  {
    if n == 0 then [] else [Written(b[..comp])] + ReadPixels(b[comp..], comp, n - 1)
  }

  /** One scanline of `x` pixels: a header of 128 or more repeats one pixel, a smaller one announces raw pixels.
      A packet that runs past the line is an error. */
  function ReadLine(b: seq<Byte>, comp: nat, x: nat): Option<(seq<Pixel>, seq<Byte>)>
    requires 1 <= comp <= 4
    decreases x
  {
    if x == 0 then Some(([], b))
    else if b == [] then None
    else
      var n := if b[0] >= 128 then b[0] - 127 else b[0] + 1;
      var stored := if b[0] >= 128 then 1 else n;
      if n > x || |b| < 1 + stored * comp then None
      else
        var packet := if b[0] >= 128 then Repeat(Written(b[1..1 + comp]), n) else ReadPixels(b[1..], comp, n);
        match ReadLine(b[1 + stored * comp..], comp, x - n)
        case None => None
        case Some((rest, b')) => Some((packet + rest, b'))
  }

  // ----- the packer

  /** The packet for the pixels from `i`: its length, and whether they are all one pixel. */
  ghost predicate Packet(row: seq<Pixel>, i: nat, len: nat, raw: bool) {
    && i < |row| && 1 <= len <= 128 && i + len <= |row|
    && (raw ==> forall k :: i + 2 <= k < i + len ==> row[k] != row[k - 2])
    && (raw && i + 1 < |row| ==> row[i] != row[i + 1])
    && (raw && len < 128 && i + len < |row| ==> len <= 126 && i + len + 1 < |row| && row[i + len + 1] == row[i + len - 1])
    && (raw && 2 <= len < 128 && i + len < |row| ==> row[i + len] != row[i + len - 2])
    && (!raw ==> len >= 2 && forall k :: i <= k < i + len ==> row[k] == row[i])
    && (!raw && len < 128 && i + len < |row| ==> row[i + len] != row[i])
  }

  /** The source decides every packet. */
  lemma PacketUnique(row: seq<Pixel>, i: nat, len: nat, raw: bool, len': nat, raw': bool)
    requires Packet(row, i, len, raw) && Packet(row, i, len', raw')
    ensures len == len' && raw == raw'
  {
  }

  method FindPacket(row: seq<Pixel>, i: nat) returns (len: nat, raw: bool)
    requires i < |row|
    ensures Packet(row, i, len, raw)
  {
    raw := true;
    len := 1;
    if i < |row| - 1 {
      len := len + 1;
      raw := row[i] != row[i + 1];
      if raw {
        // the scan compares every pixel with the one two before it
        var prev := i;
        var k := i + 2;
        while k < |row| && len < 128
          invariant k == i + len && prev == k - 2 && k <= |row| && 2 <= len <= 128
          invariant forall j :: i + 2 <= j < k ==> row[j] != row[j - 2]
        {
          if row[prev] != row[k] {
            prev := prev + 1;
            len := len + 1;
          } else {
            len := len - 1;
            break;
          }
          k := k + 1;
        }
      } else {
        var k := i + 2;
        while k < |row| && len < 128
          invariant k == i + len && k <= |row| && 2 <= len <= 128
          invariant forall j :: i <= j < k ==> row[j] == row[i]
        {
          if row[i] == row[k] {
            len := len + 1;
          } else {
            break;
          }
          k := k + 1;
        }
      }
    }
  }

  /** Pixels one after the other, as written. */
  function PixelBytes(row: seq<Pixel>): seq<Byte>
    requires forall i :: 0 <= i < |row| ==> 1 <= |row[i]| <= 4
  {
    if row == [] then [] else PixelBytes(row[..|row| - 1]) + Written(row[|row| - 1])
  }

  lemma PixelBytesSnoc(row: seq<Pixel>, px: Pixel)
    requires 1 <= |px| <= 4 && forall i :: 0 <= i < |row| ==> 1 <= |row[i]| <= 4
    ensures PixelBytes(row + [px]) == PixelBytes(row) + Written(px)
  {
    assert (row + [px])[..|row|] == row;
  }

  method WritePacket(row: seq<Pixel>, comp: nat, i: nat, len: nat, raw: bool) returns (out: seq<Byte>)
    requires PixelsOf(row, comp) && Packet(row, i, len, raw)
    ensures out == PieceBytes(row, comp, i, Piece(len, raw))
  {
    hide Written, Packet, PixelBytes;
    PacketFits(row, i, len, raw);
    if raw {
      out := [(len - 1) % 256];
      NoPixels(row[i..i]);
      for k := 0 to len
        invariant out == [len - 1] + PixelBytes(row[i..i + k])
      {
        PixelBytesSnoc(row[i..i + k], row[i + k]);
        assert row[i..i + k + 1] == row[i..i + k] + [row[i + k]];
        out := out + Written(row[i + k]);
      }
    } else {
      out := [(len - 129) % 256];
      out := out + Written(row[i]);
    }
  }

  lemma WrittenTwice(px: Pixel)
    requires 1 <= |px| <= 4
    ensures Written(Written(px)) == px
  {
    if |px| >= 3 {
      assert Written(px)[3..] == px[3..];
      assert px == [px[0], px[1], px[2]] + px[3..];
    }
  }

  lemma {:induction false} PixelBytesCons(row: seq<Pixel>)
    requires row != [] && forall i :: 0 <= i < |row| ==> 1 <= |row[i]| <= 4
    ensures PixelBytes(row) == Written(row[0]) + PixelBytes(row[1..])
    decreases |row|
  {
    hide Written, PixelBytes;
    var most, last := row[..|row| - 1], row[|row| - 1];
    assert row == most + [last];
    PixelBytesSnoc(most, last);
    if |row| == 1 {
      NoPixels(most);
      NoPixels(row[1..]);
    } else {
      PixelBytesCons(most);
      PixelBytesSnoc(most[1..], last);
      assert row[1..] == most[1..] + [last];
    }
  }

  lemma NoPixels(row: seq<Pixel>)
    requires row == []
    ensures PixelBytes(row) == []
  {
  }

  lemma OneMore(n: nat, comp: nat)
    ensures (n + 1) * comp == n * comp + comp
  {
  }

  lemma {:induction false} ReadPixelBytes(row: seq<Pixel>, comp: nat, rest: seq<Byte>)
    requires PixelsOf(row, comp)
    ensures |PixelBytes(row)| == |row| * comp && ReadPixels(PixelBytes(row) + rest, comp, |row|) == row
    decreases |row|
  {
    hide Written, PixelBytes;
    if row == [] {
      NoPixels(row);
    } else {
      PixelBytesCons(row);
      ReadPixelBytes(row[1..], comp, rest);
      WrittenTwice(row[0]);
      OneMore(|row[1..]|, comp);
      var b := PixelBytes(row) + rest;
      assert b == Written(row[0]) + (PixelBytes(row[1..]) + rest);
      assert b[..comp] == Written(row[0]) && b[comp..] == PixelBytes(row[1..]) + rest;
    }
  }

  lemma ReadRaw(pixels: seq<Pixel>, comp: nat, x: nat, rest: seq<Byte>)
    requires PixelsOf(pixels, comp) && 1 <= |pixels| <= 128 && |pixels| <= x
    ensures ReadLine([|pixels| - 1] + PixelBytes(pixels) + rest, comp, x)
      == match ReadLine(rest, comp, x - |pixels|)
         case None => None
         case Some((later, b)) => Some((pixels + later, b))
  {
    hide Written, ReadPixels, PixelBytes;
    var b := [|pixels| - 1] + PixelBytes(pixels) + rest;
    ReadPixelBytes(pixels, comp, rest);
    assert b[1..] == PixelBytes(pixels) + rest;
    assert b[1 + |pixels| * comp..] == rest;
  }

  lemma ReadRun(px: Pixel, comp: nat, len: nat, x: nat, rest: seq<Byte>)
    requires 1 <= comp <= 4 && |px| == comp && 2 <= len <= 128 && len <= x
    ensures ReadLine([len + 127] + Written(px) + rest, comp, x)
      == match ReadLine(rest, comp, x - len)
         case None => None
         case Some((later, b)) => Some((Repeat(px, len) + later, b))
  {
    hide Written, ReadPixels, Repeat;
    var b := [len + 127] + Written(px) + rest;
    WrittenTwice(px);
    assert b[0] == len + 127 && |b| >= 1 + comp;
    assert b[1..1 + comp] == Written(px);
    assert b[1 + comp..] == rest;
  }

  /** The unpacker takes exactly one packet off and recovers its pixels. */
  lemma ReadPacket(row: seq<Pixel>, comp: nat, i: nat, len: nat, raw: bool, packet: seq<Byte>, rest: seq<Byte>)
    requires PixelsOf(row, comp) && Packet(row, i, len, raw)
    requires packet == PieceBytes(row, comp, i, Piece(len, raw))
    ensures ReadLine(packet + rest, comp, |row| - i)
      == match ReadLine(rest, comp, |row| - i - len)
         case None => None
         case Some((later, b)) => Some((row[i..i + len] + later, b))
  {
    hide Written, PixelBytes, ReadLine;
    if raw {
      ReadRaw(row[i..i + len], comp, |row| - i, rest);
    } else {
      assert (len - 129) % 256 == len + 127;
      assert Repeat(row[i], len) == row[i..i + len];
      ReadRun(row[i], comp, len, |row| - i, rest);
    }
  }

  datatype Piece = Piece(len: nat, raw: bool)

  /** The pieces are the packets of the first `i` pixels, one after the other. */
  ghost predicate Tiles(row: seq<Pixel>, pieces: seq<Piece>, i: nat) {
    if pieces == [] then i == 0
    else
      var last := pieces[|pieces| - 1];
      last.len <= i && Packet(row, i - last.len, last.len, last.raw) && Tiles(row, pieces[..|pieces| - 1], i - last.len)
  }

  /** A packet as written. */
  function PieceBytes(row: seq<Pixel>, comp: nat, i: nat, piece: Piece): seq<Byte>
    requires PixelsOf(row, comp) && 1 <= piece.len <= 128 && i + piece.len <= |row|
  {
    if piece.raw then [piece.len - 1] + PixelBytes(row[i..i + piece.len])
    else [(piece.len - 129) % 256] + Written(row[i])
  }

  ghost function TilesBytes(row: seq<Pixel>, comp: nat, pieces: seq<Piece>, i: nat): seq<Byte>
    requires PixelsOf(row, comp) && Tiles(row, pieces, i)
  {
    if pieces == [] then []
    else
      var last := pieces[|pieces| - 1];
      TilesBytes(row, comp, pieces[..|pieces| - 1], i - last.len) + PieceBytes(row, comp, i - last.len, last)
  }

  lemma TilesOn(row: seq<Pixel>, comp: nat, pieces: seq<Piece>, i: nat, piece: Piece)
    requires PixelsOf(row, comp) && Tiles(row, pieces, i) && Packet(row, i, piece.len, piece.raw)
    ensures Tiles(row, pieces + [piece], i + piece.len)
    ensures TilesBytes(row, comp, pieces + [piece], i + piece.len) == TilesBytes(row, comp, pieces, i) + PieceBytes(row, comp, i, piece)
  {
    assert (pieces + [piece])[..|pieces|] == pieces;
  }

  /** One scanline: the packets tile it, and the unpacker recovers it. */
  method WriteLine(row: seq<Pixel>, comp: nat) returns (out: seq<Byte>, ghost pieces: seq<Piece>)
    requires PixelsOf(row, comp)
    ensures Tiles(row, pieces, |row|) && out == TilesBytes(row, comp, pieces, |row|)
    ensures forall rest: seq<Byte> {:trigger out + rest} :: ReadLine(out + rest, comp, |row|) == Some((row, rest))
  {
    hide *;
    out := [];
    var i := 0;
    ReadsNothing(row, comp);
    pieces := [];
    TilesNothing(row, comp);
    while i < |row|
      invariant i <= |row|
      invariant ReadsTo(row, comp, out, i)
      invariant Tiles(row, pieces, i) && out == TilesBytes(row, comp, pieces, i)
      decreases |row| - i
    {
      var len, raw := FindPacket(row, i);
      PacketFits(row, i, len, raw);
      var packet := WritePacket(row, comp, i, len, raw);
      ReadsOn(row, comp, out, i, len, raw, packet);
      TilesOn(row, comp, pieces, i, Piece(len, raw));
      pieces := pieces + [Piece(len, raw)];
      out := out + packet;
      i := i + len;
    }
    ReadsAll(row, comp, out);
  }

  lemma TilesNothing(row: seq<Pixel>, comp: nat)
    requires PixelsOf(row, comp)
    ensures Tiles(row, [], 0) && TilesBytes(row, comp, [], 0) == []
  {
  }

  /** Reading `out` yields the first `i` pixels and goes on with the others. */
  ghost predicate ReadsTo(row: seq<Pixel>, comp: nat, out: seq<Byte>, i: nat)
    requires PixelsOf(row, comp) && i <= |row|
  {
    forall rest: seq<Byte> {:trigger out + rest} :: ReadLine(out + rest, comp, |row|)
      == match ReadLine(rest, comp, |row| - i)
         case None => None
         case Some((later, b)) => Some((row[..i] + later, b))
  }

  lemma ReadsNothing(row: seq<Pixel>, comp: nat)
    requires PixelsOf(row, comp)
    ensures ReadsTo(row, comp, [], 0)
  {
    hide ReadLine;
    forall rest: seq<Byte>
      ensures ReadLine([] + rest, comp, |row|)
        == match ReadLine(rest, comp, |row| - 0)
           case None => None
           case Some((later, b)) => Some((row[..0] + later, b))
    {
      assert [] + rest == rest;
      match ReadLine(rest, comp, |row|)
      case None =>
      case Some((later, b)) => assert row[..0] + later == later;
    }
  }

  lemma ReadsOn(row: seq<Pixel>, comp: nat, out: seq<Byte>, i: nat, len: nat, raw: bool, packet: seq<Byte>)
    requires PixelsOf(row, comp) && Packet(row, i, len, raw) && ReadsTo(row, comp, out, i)
    requires packet == PieceBytes(row, comp, i, Piece(len, raw))
    ensures ReadsTo(row, comp, out + packet, i + len)
  {
    hide ReadLine, PixelBytes, Written, Packet;
    assert 1 <= len && i + len <= |row| by { PacketFits(row, i, len, raw); }
    forall rest: seq<Byte>
      ensures ReadLine((out + packet) + rest, comp, |row|)
        == match ReadLine(rest, comp, |row| - (i + len))
           case None => None
           case Some((later, b)) => Some((row[..i + len] + later, b))
    {
      assert (out + packet) + rest == out + (packet + rest);
      ReadPacket(row, comp, i, len, raw, packet, rest);
      match ReadLine(rest, comp, |row| - i - len)
      case None =>
      case Some((later, b)) => assert row[..i] + (row[i..i + len] + later) == row[..i + len] + later;
    }
  }

  lemma PacketFits(row: seq<Pixel>, i: nat, len: nat, raw: bool)
    requires Packet(row, i, len, raw)
    ensures 1 <= len <= 128 && i + len <= |row| && (!raw ==> len >= 2)
  {
  }

  lemma ReadsAll(row: seq<Pixel>, comp: nat, out: seq<Byte>)
    requires PixelsOf(row, comp) && ReadsTo(row, comp, out, |row|)
    ensures 1 <= comp <= 4
    ensures forall rest: seq<Byte> {:trigger out + rest} :: ReadLine(out + rest, comp, |row|) == Some((row, rest))
  {
    assert row[..|row|] == row;
    forall rest: seq<Byte>
      ensures ReadLine(out + rest, comp, |row|) == Some((row, rest))
    {
      assert ReadLine(rest, comp, 0) == Some(([], rest));
      assert row + [] == row;
    }
  }
}
