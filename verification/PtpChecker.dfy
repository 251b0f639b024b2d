/**
 Picking one device's answer out of the output of `pmc`: the one-flag capture loop of
 `GetRemoteTimeStatus`, and the clock identity it looks for, made from a MAC address.
 */
module PtpChecker {
  import opened Common
  import opened GoStrings

  // ---- The loop ----

  const INFIX := ".fffe."

  /** A line the loop takes for the start of a response block. */
  predicate IsHeader(line: string) {
    Contains(line, INFIX)
  }

  predicate Matches(line: string, clockId: string) {
    HasPrefix(TrimSpace(line), clockId)
  }

  /** The flag `capturing` after one more line. */
  function Flag(line: string, clockId: string, capturing: bool): bool {
    if IsHeader(line) then Matches(line, clockId) else capturing
  }

  function FlagAfter(lines: seq<string>, clockId: string, capturing: bool): bool {
    if lines == [] then capturing else FlagAfter(lines[1..], clockId, Flag(lines[0], clockId, capturing))
  }

  /** The lines kept when the loop starts with the given flag. */
  function Stream(lines: seq<string>, clockId: string, capturing: bool): seq<string> {
    if lines == [] then []
    else
      var flag := Flag(lines[0], clockId, capturing);
      (if flag then [lines[0]] else []) + Stream(lines[1..], clockId, flag)
  }

  function Capture(lines: seq<string>, clockId: string): seq<string> {
    Stream(lines, clockId, false)
  }

  predicate CapturesLine(lines: seq<string>, clockId: string, k: nat)
    requires k < |lines|
  {
    FlagAfter(lines[..k + 1], clockId, false)
  }

  function Text(lines: seq<string>): string {
    if lines == [] then "" else Text(lines[..|lines| - 1]) + lines[|lines| - 1] + "\n"
  }

  lemma {:induction false} FlagConcat(a: seq<string>, b: seq<string>, clockId: string, capturing: bool)
    ensures FlagAfter(a + b, clockId, capturing) == FlagAfter(b, clockId, FlagAfter(a, clockId, capturing))
  {
    if a == [] {
      assert a + b == b;
    } else {
      assert (a + b)[0] == a[0] && (a + b)[1..] == a[1..] + b;
      FlagConcat(a[1..], b, clockId, Flag(a[0], clockId, capturing));
    }
  }

  lemma {:induction false} StreamConcat(a: seq<string>, b: seq<string>, clockId: string, capturing: bool)
    ensures Stream(a + b, clockId, capturing)
         == Stream(a, clockId, capturing) + Stream(b, clockId, FlagAfter(a, clockId, capturing))
  {
    if a == [] {
      assert a + b == b;
    } else {
      assert (a + b)[0] == a[0] && (a + b)[1..] == a[1..] + b;
      StreamConcat(a[1..], b, clockId, Flag(a[0], clockId, capturing));
    }
  }

  /** A captured text is the captured lines in order, one more per captured line. */
  lemma CaptureStep(lines: seq<string>, clockId: string, k: nat)
    requires k < |lines|
    ensures CapturesLine(lines, clockId, k) == Flag(lines[k], clockId, FlagAfter(lines[..k], clockId, false))
    ensures Capture(lines[..k + 1], clockId)
         == if CapturesLine(lines, clockId, k) then Capture(lines[..k], clockId) + [lines[k]] else Capture(lines[..k], clockId)
  {
    assert lines[..k + 1] == lines[..k] + [lines[k]];
    FlagConcat(lines[..k], [lines[k]], clockId, false);
    StreamConcat(lines[..k], [lines[k]], clockId, false);
  }

  lemma TextStep(lines: seq<string>, line: string)
    ensures Text(lines + [line]) == Text(lines) + line + "\n"
  {
    assert (lines + [line])[..|lines|] == lines;
  }

  /** A text cut at its line feeds. */
  function CutAtLineFeeds(text: string, current: string): seq<string> {
    if text == "" then if current == "" then [] else [current]
    else if text[0] == '\n' then [current] + CutAtLineFeeds(text[1..], "")
    else CutAtLineFeeds(text[1..], current + [text[0]])
  }

  lemma {:induction false} CutFirst(line: string, rest: string, current: string)
    requires '\n' !in line
    ensures CutAtLineFeeds(line + "\n" + rest, current) == [current + line] + CutAtLineFeeds(rest, "")
    decreases |line|
  {
    var text := line + "\n" + rest;
    if line == "" {
      assert text[0] == '\n' && text[1..] == rest && current + line == current;
    } else {
      assert text[1..] == line[1..] + "\n" + rest;
      CutFirst(line[1..], rest, current + [line[0]]);
      assert current + [line[0]] + line[1..] == current + line;
    }
  }

  lemma {:induction false} TextOfFirst(lines: seq<string>)
    requires lines != []
    ensures Text(lines) == lines[0] + "\n" + Text(lines[1..])
  {
    var n := |lines| - 1;
    if n == 0 {
      assert lines[..0] == [] && lines[1..] == [];
    } else {
      TextOfFirst(lines[..n]);
      assert lines[..n][1..] == lines[1..][..n - 1];
    }
  }

  /** The text returned holds the captured lines, each ended by a line feed: cutting it gives them back. */
  lemma {:induction false} TextIsCutBack(lines: seq<string>)
    requires forall i :: 0 <= i < |lines| ==> '\n' !in lines[i]
    ensures CutAtLineFeeds(Text(lines), "") == lines
    ensures Text(lines) != "" ==> Text(lines)[|Text(lines)| - 1] == '\n'
  {
    if lines != [] {
      TextOfFirst(lines);
      TextIsCutBack(lines[1..]);
      CutFirst(lines[0], Text(lines[1..]), "");
      assert "" + lines[0] == lines[0];
      assert lines == [lines[0]] + lines[1..];
    }
  }

  method FilterResponse(lines: seq<string>, clockId: string) returns (r: Result<string, string>)
    ensures var captured := Capture(lines, clockId);
      r == if captured == [] then Err("no response from device") else Ok(Text(captured))
  {
    var capturing := false;
    var result := "";
    for k := 0 to |lines|
      invariant capturing == FlagAfter(lines[..k], clockId, false)
      invariant result == Text(Capture(lines[..k], clockId))
    {
      CaptureStep(lines, clockId, k);
      TextStep(Capture(lines[..k], clockId), lines[k]);
      if Contains(lines[k], ".fffe.") {
        if HasPrefix(TrimSpace(lines[k]), clockId) {
          capturing := true;
        } else {
          capturing := false;
        }
      }
      if capturing {
        result := result + lines[k];
        result := result + "\n";
      }
    }
    assert lines[..|lines|] == lines;
    if |result| == 0 {
      return Err("no response from device");
    }
    return Ok(result);
  }

  // ---- The block reading of the output ----

  function BodyLength(lines: seq<string>): (n: nat)
    ensures n <= |lines|
  {
    if lines == [] || IsHeader(lines[0]) then 0 else 1 + BodyLength(lines[1..])
  }

  /** The output as blocks: each header with the lines up to the next header. Lines before the first header are in none. */
  function Blocks(lines: seq<string>): seq<seq<string>> {
    if lines == [] then []
    else if IsHeader(lines[0]) then [[lines[0]] + lines[1..][..BodyLength(lines[1..])]] + Blocks(lines[1..])
    else Blocks(lines[1..])
  }

  ghost predicate IsBlock(block: seq<string>) {
    block != [] && IsHeader(block[0]) && forall i :: 1 <= i < |block| ==> !IsHeader(block[i])
  }

  function Flatten(blocks: seq<seq<string>>): seq<string> {
    if blocks == [] then [] else blocks[0] + Flatten(blocks[1..])
  }

  function Select(blocks: seq<seq<string>>, clockId: string): seq<string> {
    if blocks == [] then []
    else (if blocks[0] != [] && Matches(blocks[0][0], clockId) then blocks[0] else []) + Select(blocks[1..], clockId)
  }

  /** Lines without a header among them are kept or dropped together. */
  lemma {:induction false} BodyGoesWithFlag(lines: seq<string>, clockId: string, capturing: bool)
    requires BodyLength(lines) == |lines|
    ensures Stream(lines, clockId, capturing) == if capturing then lines else []
    ensures FlagAfter(lines, clockId, capturing) == capturing
  {
    if lines != [] {
      BodyGoesWithFlag(lines[1..], clockId, capturing);
      assert lines == [lines[0]] + lines[1..];
    }
  }

  lemma {:induction false} BodyPrefix(lines: seq<string>)
    ensures BodyLength(lines[..BodyLength(lines)]) == BodyLength(lines)
    ensures forall i :: 0 <= i < BodyLength(lines) ==> !IsHeader(lines[i])
    ensures BodyLength(lines) < |lines| ==> IsHeader(lines[BodyLength(lines)])
  {
    if lines != [] && !IsHeader(lines[0]) {
      BodyPrefix(lines[1..]);
      assert lines[..BodyLength(lines)][1..] == lines[1..][..BodyLength(lines[1..])];
      assert forall i :: 1 <= i < |lines| ==> lines[i] == lines[1..][i - 1];
    }
  }

  /** The blocks cut the output from the first header on into pieces that have one header each, at their front. */
  lemma {:induction false} BlocksCover(lines: seq<string>)
    ensures Flatten(Blocks(lines)) == lines[BodyLength(lines)..]
    ensures forall i :: 0 <= i < |Blocks(lines)| ==> IsBlock(Blocks(lines)[i])
  {
    if lines != [] {
      BlocksCover(lines[1..]);
      BodyPrefix(lines[1..]);
      var n := BodyLength(lines[1..]);
      if IsHeader(lines[0]) {
        assert lines == ([lines[0]] + lines[1..][..n]) + lines[1..][n..];
      } else {
        assert lines[1 + n..] == lines[1..][n..];
      }
    }
  }

  /** What the loop keeps, in terms of blocks. */
  function Kept(lines: seq<string>, clockId: string, capturing: bool): seq<string> {
    (if capturing then lines[..BodyLength(lines)] else []) + Select(Blocks(lines), clockId)
  }

  lemma KeptHeader(lines: seq<string>, clockId: string, capturing: bool)
    requires lines != [] && IsHeader(lines[0])
    ensures var flag := Matches(lines[0], clockId);
      Kept(lines, clockId, capturing) == (if flag then [lines[0]] else []) + Kept(lines[1..], clockId, flag)
  {
    var block := [lines[0]] + lines[1..][..BodyLength(lines[1..])];
    assert block[0] == lines[0];
    assert Blocks(lines) == [block] + Blocks(lines[1..]);
    assert lines[..BodyLength(lines)] == [];
  }

  lemma KeptBody(lines: seq<string>, clockId: string, capturing: bool)
    requires lines != [] && !IsHeader(lines[0])
    ensures Kept(lines, clockId, capturing) == (if capturing then [lines[0]] else []) + Kept(lines[1..], clockId, capturing)
  {
    assert lines[..BodyLength(lines)] == [lines[0]] + lines[1..][..BodyLength(lines[1..])];
  }

  /** From a header on, the flag the loop comes with does not matter. */
  lemma {:induction false} StreamIsBlocks(lines: seq<string>, clockId: string, capturing: bool)
    ensures Stream(lines, clockId, capturing) == Kept(lines, clockId, capturing)
  {
    if lines != [] {
      StreamIsBlocks(lines[1..], clockId, Flag(lines[0], clockId, capturing));
      if IsHeader(lines[0]) {
        KeptHeader(lines, clockId, capturing);
      } else {
        KeptBody(lines, clockId, capturing);
      }
    }
  }

  /** The one-flag loop keeps exactly the blocks whose header line starts with the clock identity. */
  lemma CaptureIsSelect(lines: seq<string>, clockId: string)
    ensures Capture(lines, clockId) == Select(Blocks(lines), clockId)
  {
    StreamIsBlocks(lines, clockId, false);
  }

  // ---- Consequences ----

  lemma {:induction false} CapturedHeadersMatch(lines: seq<string>, clockId: string, capturing: bool)
    ensures forall x :: x in Stream(lines, clockId, capturing) && IsHeader(x) ==> Matches(x, clockId)
    ensures var out := Stream(lines, clockId, capturing);
      out != [] && !capturing ==> IsHeader(out[0])
  {
    if lines != [] {
      CapturedHeadersMatch(lines[1..], clockId, Flag(lines[0], clockId, capturing));
    }
  }

  lemma {:induction false} OnlyMatchingKeepsAll(lines: seq<string>, clockId: string)
    requires forall x :: x in lines && IsHeader(x) ==> Matches(x, clockId)
    ensures Stream(lines, clockId, true) == lines
  {
    if lines != [] {
      OnlyMatchingKeepsAll(lines[1..], clockId);
      assert lines == [lines[0]] + lines[1..];
    }
  }

  /** Filtering what was filtered changes nothing. */
  lemma CaptureIsIdempotent(lines: seq<string>, clockId: string)
    ensures Capture(Capture(lines, clockId), clockId) == Capture(lines, clockId)
  {
    var out := Capture(lines, clockId);
    CapturedHeadersMatch(lines, clockId, false);
    if out != [] {
      assert forall x :: x in out[1..] ==> x in out;
      OnlyMatchingKeepsAll(out[1..], clockId);
      assert out == [out[0]] + out[1..];
    }
  }

  /** No line of the output is captured for two identities of the same length. */
  lemma {:induction false} NoLineForTwo(lines: seq<string>, a: string, b: string, k: nat)
    requires k < |lines| && |a| == |b| && a != b
    ensures !(CapturesLine(lines, a, k) && CapturesLine(lines, b, k))
  {
    CaptureStep(lines, a, k);
    CaptureStep(lines, b, k);
    if k > 0 {
      NoLineForTwo(lines, a, b, k - 1);
    }
  }

  /** Capture is off from a header of somebody else to the next header of this device. */
  lemma {:induction false} OffUntilNextMatch(lines: seq<string>, clockId: string, k: nat, j: nat)
    requires k <= j < |lines| && IsHeader(lines[k])
    requires forall i :: k <= i <= j && IsHeader(lines[i]) ==> !Matches(lines[i], clockId)
    ensures !CapturesLine(lines, clockId, j)
  {
    CaptureStep(lines, clockId, j);
    if k < j {
      OffUntilNextMatch(lines, clockId, k, j - 1);
    }
  }

  /**
   The line `gmIdentity aabbcc.fffe.ddeeff` inside an answer counts as a header, so it ends the
   capture: for no device is it ever part of the captured text.
   */
  lemma GmIdentityIsLost(lines: seq<string>, clockId: string, line: string)
    requires clockId != "" && clockId[0] != 'g'
    requires IsHeader(line) && HasPrefix(TrimSpace(line), "gmIdentity")
    ensures line !in Capture(lines, clockId)
  {
    CapturedHeadersMatch(lines, clockId, false);
    assert TrimSpace(line)[0] == 'g';
  }

  lemma {:induction false} EmptyIdStream(lines: seq<string>, capturing: bool)
    ensures Stream(lines, "", capturing) == if capturing then lines else lines[BodyLength(lines)..]
  {
    if lines != [] {
      EmptyIdStream(lines[1..], Flag(lines[0], "", capturing));
      assert lines == [lines[0]] + lines[1..];
      assert lines[1 + BodyLength(lines[1..])..] == lines[1..][BodyLength(lines[1..])..];
    }
  }

  /** With an empty identity every block matches: everything from the first header on is kept. */
  lemma EmptyIdKeepsAll(lines: seq<string>)
    ensures Capture(lines, "") == lines[BodyLength(lines)..]
  {
    EmptyIdStream(lines, false);
  }

  // ---- The clock identity ----

  predicate IsHex(c: char) {
    '0' <= c <= '9' || 'a' <= c <= 'f' || 'A' <= c <= 'F'
  }

  function RemoveColons(s: string): string {
    if s == "" then "" else (if s[0] == ':' then "" else [s[0]]) + RemoveColons(s[1..])
  }

  function Colons(s: string): nat {
    if s == "" then 0 else (if s[0] == ':' then 1 else 0) + Colons(s[1..])
  }

  /** The 48-bit MAC address with FFFE put in its middle, as `pmc` prints a clock identity. */
  function MacToClockId(mac: string): string {
    var digits := ToLower(RemoveColons(mac));
    if |digits| != 12 then "" else digits[..6] + INFIX + digits[6..]
  }

  /** Two digits, colon, two digits, and so on. */
  predicate ColonPairs(s: string) {
    |s| >= 2 && IsHex(s[0]) && IsHex(s[1]) && (|s| == 2 || (s[2] == ':' && ColonPairs(s[3..])))
  }

  predicate IsMac(s: string) {
    |s| == 17 && ColonPairs(s)
  }

  function InsertColons(digits: string): string {
    if |digits| <= 2 then digits else digits[..2] + ":" + InsertColons(digits[2..])
  }

  function ClockIdToMac(id: string): string
    requires |id| == 18
  {
    InsertColons(id[..6] + id[12..])
  }

  lemma {:induction false} RemoveColonsLength(s: string)
    ensures |RemoveColons(s)| + Colons(s) == |s|
  {
    if s != "" {
      RemoveColonsLength(s[1..]);
    }
  }

  /** On anything the ARP table pattern lets through, the identity exists exactly with five colons. */
  lemma ClockIdExists(mac: string)
    requires |mac| == 17
    ensures MacToClockId(mac) != "" <==> Colons(mac) == 5
    ensures MacToClockId(mac) != "" ==>
      && |MacToClockId(mac)| == 18
      && MacToClockId(mac)[..6] + MacToClockId(mac)[12..] == ToLower(RemoveColons(mac))
      && MacToClockId(mac)[6..12] == ".fffe."
  {
    RemoveColonsLength(mac);
    var digits := ToLower(RemoveColons(mac));
    if |digits| == 12 {
      assert MacToClockId(mac)[..6] == digits[..6] && MacToClockId(mac)[12..] == digits[6..];
    }
  }

  lemma {:induction false} InsertUndoesRemove(s: string)
    requires ColonPairs(s)
    ensures InsertColons(ToLower(RemoveColons(s))) == ToLower(s)
    ensures 3 * |RemoveColons(s)| == 2 * |s| + 2
  {
    assert s == [s[0], s[1]] + s[2..];
    assert RemoveColons(s) == [s[0], s[1]] + RemoveColons(s[2..]) by {
      assert s[1..][0] == s[1] && s[1..][1..] == s[2..];
    }
    if |s| > 2 {
      assert s[2..][0] == ':' && s[2..][1..] == s[3..];
      InsertUndoesRemove(s[3..]);
      var digits := ToLower(RemoveColons(s));
      assert digits[2..] == ToLower(RemoveColons(s[3..]));
      assert ToLower(s) == ToLower(s[..2]) + ":" + ToLower(s[3..]);
    } else {
      assert s[2..] == "";
      assert RemoveColons(s) == s;
    }
  }

  /** Decoding the identity gives back the MAC address in lower case. */
  lemma ClockIdRoundTrip(mac: string)
    requires IsMac(mac)
    ensures |MacToClockId(mac)| == 18
    ensures ClockIdToMac(MacToClockId(mac)) == ToLower(mac)
  {
    InsertUndoesRemove(mac);
    var digits := ToLower(RemoveColons(mac));
    var id := MacToClockId(mac);
    assert id[..6] + id[12..] == digits;
  }

  lemma {:induction false} LowerKeepsDigits(a: string, b: string)
    requires ToLower(a) == ToLower(b)
    ensures ToLower(RemoveColons(a)) == ToLower(RemoveColons(b))
  {
    if a == "" {
      assert b == "";
    } else {
      assert LowerChar(a[0]) == ToLower(a)[0] == ToLower(b)[0] == LowerChar(b[0]);
      assert ToLower(a[1..]) == ToLower(a)[1..] == ToLower(b)[1..] == ToLower(b[1..]);
      LowerKeepsDigits(a[1..], b[1..]);
      LowerOfRemove(a);
      LowerOfRemove(b);
    }
  }

  lemma LowerOfRemove(s: string)
    requires s != ""
    ensures ToLower(RemoveColons(s)) == (if LowerChar(s[0]) == ':' then "" else [LowerChar(s[0])]) + ToLower(RemoveColons(s[1..]))
  {
    assert LowerChar(s[0]) == ':' <==> s[0] == ':';
  }

  /** Two MAC addresses share an identity exactly if they differ in letter case only. */
  lemma ClockIdIsInjective(a: string, b: string)
    requires IsMac(a) && IsMac(b)
    ensures MacToClockId(a) == MacToClockId(b) <==> ToLower(a) == ToLower(b)
  {
    ClockIdRoundTrip(a);
    ClockIdRoundTrip(b);
    if ToLower(a) == ToLower(b) {
      LowerKeepsDigits(a, b);
    }
  }

  // ---- Codec and loop together ----

  /** No line of the output is taken for two different devices. */
  lemma DevicesNeverShareALine(lines: seq<string>, a: string, b: string, k: nat)
    requires IsMac(a) && IsMac(b) && ToLower(a) != ToLower(b) && k < |lines|
    ensures !(CapturesLine(lines, MacToClockId(a), k) && CapturesLine(lines, MacToClockId(b), k))
  {
    ClockIdRoundTrip(a);
    ClockIdRoundTrip(b);
    ClockIdIsInjective(a, b);
    NoLineForTwo(lines, MacToClockId(a), MacToClockId(b), k);
  }

  /** A line that starts with a device's identity is recognized as a header, however it is indented. */
  lemma MatchIsHeader(line: string, mac: string)
    requires IsMac(mac) && Matches(line, MacToClockId(mac))
    ensures IsHeader(line)
  {
    ClockIdRoundTrip(mac);
    InsertUndoesRemove(mac);
    var id := MacToClockId(mac);
    assert id[6..12] == INFIX;
    var i, j := TrimIsSlice(line);
    var trimmed := TrimSpace(line);
    assert trimmed[6..12] == id[6..12];
    assert forall k :: 0 <= k < |trimmed| ==> trimmed[k] == line[i + k];
    assert line[i + 6..i + 12] == trimmed[6..12];
    assert OccursAt(line, INFIX, i + 6);
  }

  /** No device's captured text contains its grandmaster line. */
  lemma NoGrandmasterLine(lines: seq<string>, mac: string, line: string)
    requires IsMac(mac) && line in Capture(lines, MacToClockId(mac))
    ensures !(IsHeader(line) && HasPrefix(TrimSpace(line), "gmIdentity"))
  {
    InsertUndoesRemove(mac);
    var digits := ToLower(RemoveColons(mac));
    assert RemoveColons(mac)[0] == mac[0];
    assert MacToClockId(mac)[0] == digits[0] == LowerChar(mac[0]);
    if IsHeader(line) && HasPrefix(TrimSpace(line), "gmIdentity") {
      GmIdentityIsLost(lines, MacToClockId(mac), line);
    }
  }

  /** The value of a hexadecimal digit. */
  function HexValue(c: char): int {
    if '0' <= c <= '9' then c as int - '0' as int
    else if 'a' <= c <= 'f' then c as int - 'a' as int + 10
    else if 'A' <= c <= 'F' then c as int - 'A' as int + 10
    else -1
  }

  lemma {:induction false} DigitOfPair(s: string, k: nat)
    requires ColonPairs(s) && k < |RemoveColons(s)|
    ensures 3 * (k / 2) + k % 2 < |s|
    ensures RemoveColons(s)[k] == s[3 * (k / 2) + k % 2] && IsHex(RemoveColons(s)[k])
  {
    PairInFront(s);
    if k >= 2 {
      DigitOfPair(s[3..], k - 2);
    }
  }

  lemma PairInFront(s: string)
    requires ColonPairs(s)
    ensures |s| > 2 ==> RemoveColons(s) == [s[0], s[1]] + RemoveColons(s[3..])
    ensures |s| == 2 ==> RemoveColons(s) == s
  {
    assert s[1..][0] == s[1] && s[1..][1..] == s[2..];
    assert RemoveColons(s[1..]) == [s[1]] + RemoveColons(s[2..]);
    assert RemoveColons(s) == [s[0]] + RemoveColons(s[1..]) == [s[0], s[1]] + RemoveColons(s[2..]);
    if |s| > 2 {
      assert s[2..][0] == ':' && s[2..][1..] == s[3..];
      assert RemoveColons(s[2..]) == RemoveColons(s[3..]);
    } else {
      assert s[2..] == "" && s == [s[0], s[1]];
    }
  }

  /** The identity has the address's twelve digits by value, written in lower case, around the infix. */
  lemma ClockIdDigits(mac: string, k: nat)
    requires IsMac(mac) && k < 12
    ensures |MacToClockId(mac)| == 18
    ensures var c := MacToClockId(mac)[if k < 6 then k else k + 6];
      HexValue(c) == HexValue(mac[3 * (k / 2) + k % 2]) && ('0' <= c <= '9' || 'a' <= c <= 'f')
  {
    InsertUndoesRemove(mac);
    DigitOfPair(mac, k);
  }

  /** A line with the device's identity behind tabs and blanks is a header of its own. */
  lemma IndentedHeaderMatches(line: string, mac: string, indent: string, rest: string)
    requires IsMac(mac) && line == indent + MacToClockId(mac) + rest
    requires forall i :: 0 <= i < |indent| ==> indent[i] == '\t' || indent[i] == ' '
    ensures IsHeader(line) && Matches(line, MacToClockId(mac))
  {
    var id := MacToClockId(mac);
    ClockIdDigits(mac, 0);
    ClockIdDigits(mac, 11);
    assert line == indent + (id + rest);
    TrimLeftDrops(indent, id + rest);
    TrimRightKeeps(id, rest);
    MatchIsHeader(line, mac);
  }

  lemma {:induction false} TrimRightKeeps(s: string, rest: string)
    requires s != "" && !IsSpace(s[|s| - 1])
    ensures s <= TrimRight(s + rest)
  {
    if rest == "" {
      assert s + rest == s;
    } else if IsSpace(rest[|rest| - 1]) {
      assert (s + rest)[..|s + rest| - 1] == s + rest[..|rest| - 1];
      TrimRightKeeps(s, rest[..|rest| - 1]);
    }
  }

  lemma {:induction false} BodyIsCaptured(lines: seq<string>, clockId: string, k: nat, m: nat)
    requires k < m <= |lines| && CapturesLine(lines, clockId, k)
    requires forall i :: k < i < m ==> !IsHeader(lines[i])
    ensures CapturesLine(lines, clockId, m - 1)
    ensures Capture(lines[..m], clockId) == Capture(lines[..k], clockId) + lines[k..m]
    decreases m - k
  {
    CaptureStep(lines, clockId, m - 1);
    if k < m - 1 {
      BodyIsCaptured(lines, clockId, k, m - 1);
      assert lines[k..m] == lines[k..m - 1] + [lines[m - 1]];
    } else {
      assert lines[k..m] == [lines[k]];
    }
  }

  /**
   What the filter is for: a device's answer, its header behind tabs and blanks and the lines up to
   the next header, is captured as a whole, whatever stands before and after it.
   */
  lemma AnswerIsCaptured(lines: seq<string>, mac: string, k: nat, m: nat, indent: string, rest: string)
    requires IsMac(mac) && k < m <= |lines| && lines[k] == indent + MacToClockId(mac) + rest
    requires forall i :: 0 <= i < |indent| ==> indent[i] == '\t' || indent[i] == ' '
    requires forall i, before: string, after: string :: k < i < m ==> lines[i] != before + ".fffe." + after
    ensures exists earlier, later ::
      Capture(lines, MacToClockId(mac)) == earlier + lines[k..m] + later
  {
    var id := MacToClockId(mac);
    IndentedHeaderMatches(lines[k], mac, indent, rest);
    CaptureStep(lines, id, k);
    forall i | k < i < m ensures !IsHeader(lines[i]) {
      ContainsExactly(lines[i], ".fffe.");
    }
    BodyIsCaptured(lines, id, k, m);
    assert lines == lines[..m] + lines[m..];
    StreamConcat(lines[..m], lines[m..], id, false);
    var earlier, later := Capture(lines[..k], id), Stream(lines[m..], id, FlagAfter(lines[..m], id, false));
    assert Capture(lines, id) == earlier + lines[k..m] + later;
  }
}
