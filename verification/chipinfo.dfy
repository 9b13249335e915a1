/**
 * ChipInfo_GetSocName_ToBuf of ameba_chipinfo_lib.c: the SoC name is the
 * directory between the first "soc/" of the source path and the first "/lib"
 * after it; it is copied into `char socname[20]` and printed into the caller's
 * buffer as "<name>: " and "\r\n" through CHIP_INFO_PRINT_BUF, which calls
 * DiagSnPrintf on the unused rest of the buffer.
 *
 * The source path (`__FILE__`) is a parameter.  The buffer is the text written
 * so far: its length is `buf_used_bytes`.
 */
module ChipInfo {

  import opened Bits
  import opened DiagFormat
  import opened DiagPrintf
  import opened SnFormat

  /** `sizeof(socname)` */
  const SocNameSize: nat := 20
  const StartMarker: string := "soc/"
  const EndMarker: string := "/lib"

  /** ChipInfo_PsramExists: the package always has PSRAM. */
  function PsramExists(): (r: bool)
    ensures r
  {
    true
  }

  // ---------------------------------------------------------------------------
  // strstr
  // ---------------------------------------------------------------------------

  predicate OccursAt(s: string, pat: string, j: nat) {
    j + |pat| <= |s| && s[j..j + |pat|] == pat
  }

  /** strstr(s + from, pat): the first occurrence of `pat` at or after `from`. */
  function Find(s: string, pat: string, from: nat): (r: Option<nat>)
    requires from <= |s|
    ensures r.Some? ==> from <= r.value && OccursAt(s, pat, r.value)
    ensures r.Some? ==> forall j :: from <= j < r.value ==> !OccursAt(s, pat, j)
    ensures r.None? ==> forall j :: from <= j ==> !OccursAt(s, pat, j)
    decreases |s| - from
  {
    if OccursAt(s, pat, from) then Some(from)
    else if from + |pat| >= |s| then None
    else Find(s, pat, from + 1)
  }

  /** The name between the markers, or None when either marker is missing. */
  function SocName(path: string): (r: Option<string>) {
    match Find(path, StartMarker, 0)
    case None => None
    case Some(a) =>
      match Find(path, EndMarker, a + 4)
      case None => None
      case Some(e) => Some(path[a + 4..e])
  }

  /** The found name sits right after the first "soc/" and right before the next "/lib". */
  lemma SocNameSpan(path: string)
    requires SocName(path).Some?
    ensures var a := Find(path, StartMarker, 0).value;
            var e := Find(path, EndMarker, a + 4).value;
            && a + 4 <= e
            && path[a..a + 4] == StartMarker
            && path[e..e + 4] == EndMarker
            && SocName(path).value == path[a + 4..e]
            && (forall j: nat :: j < a ==> !OccursAt(path, StartMarker, j))
            && (forall j: nat :: a + 4 <= j < e ==> !OccursAt(path, EndMarker, j))
  {
  }

  /** There is no name exactly when "soc/" is missing or no "/lib" follows the first one. */
  lemma SocNameMissing(path: string)
    ensures SocName(path).None? <==>
              || (forall j: nat :: !OccursAt(path, StartMarker, j))
              || (forall j: nat :: Find(path, StartMarker, 0).value + 4 <= j ==> !OccursAt(path, EndMarker, j))
  {
  }

  // ---------------------------------------------------------------------------
  // strncpy into socname and the terminating NUL
  // ---------------------------------------------------------------------------

  /** What the copy leaves in `socname`: the copied characters and the index of the NUL. */
  datatype Copy = Copy(name: string, nulAt: nat)

  /**
   * `namelen = MIN(len, limit); strncpy(socname, name, namelen);
   * socname[namelen] = '\0'`.
   */
  function CopyName(name: string, limit: nat): (c: Copy)
    ensures c.nulAt == |c.name| && c.nulAt <= limit
    ensures c.name <= name
    ensures |name| <= limit ==> c.name == name
  {
    var n := if |name| < limit then |name| else limit;
    Copy(name[..n], n)
  }

  /** As written the limit is the array size: a 20-character name puts the NUL at index 20, past the array. */
  lemma CopyNameOverflows(name: string)
    requires |name| >= SocNameSize
    ensures CopyName(name, SocNameSize).nulAt == SocNameSize
  {
  }

  /** With the limit one below the array size the NUL always lands inside it, and the name keeps 19 characters. */
  lemma CopyNameInside(name: string)
    ensures CopyName(name, SocNameSize - 1).nulAt < SocNameSize
    ensures |name| >= SocNameSize - 1 ==> |CopyName(name, SocNameSize - 1).name| == SocNameSize - 1
  {
  }

  // ---------------------------------------------------------------------------
  // CHIP_INFO_PRINT_BUF
  // ---------------------------------------------------------------------------

  /**
   * CHIP_INFO_PRINT_BUF: while `used < buflen`, format into the rest of the
   * buffer and add what DiagSnPrintf returns to `used`.
   */
  function PrintBuf(abi: Abi, text: string, buflen: nat, fmt: string, args: seq<Arg>): (r: string)
    ensures |text| <= |r| && r[..|text|] == text
    ensures |text| >= buflen ==> r == text
  {
    if |text| < buflen then text + SnPrintf(abi, false, buflen - |text|, fmt, args).out else text
  }

  /** Appending a formatted item that prints `u` unbounded: the buffer takes as much of it as fits. */
  lemma PrintBufFits(abi: Abi, text: string, buflen: nat, fmt: string, args: seq<Arg>, u: string)
    requires SnPrintf(abi, false, 0, fmt, args) == Returned(u, |u|)
    ensures var r := PrintBuf(abi, text, buflen, fmt, args);
            && (|text| < buflen ==> r == text + u[..Min(|u|, buflen - |text|)])
            && |r| <= Max(|text|, buflen)
  {
    if |text| < buflen {
      SnPrintfTruncates(abi, buflen - |text|, fmt, args);
    }
  }

  /** The unbounded "%s: " of a string. */
  lemma NameItem(abi: Abi, name: string)
    ensures SnPrintf(abi, false, 0, "%s: ", [Str(name)]) == Returned(name + ": ", |name| + 2)
  {
    var fmt := "%s: ";
    assert [Str(name)] == [Str(name)] + [];
    SnString(abi, false, fmt, 0, name, [], []);
    SnLiteralCopy(abi, false, fmt, 2, [], [] + name);
    assert fmt[2..] == ": ";
  }

  /** The unbounded "\r\n". */
  lemma NewlineItem(abi: Abi)
    ensures SnPrintf(abi, false, 0, "\r\n", []) == Returned("\r\n", 2)
  {
    SnLiteralCopy(abi, false, "\r\n", 0, [], []);
    assert "\r\n"[0..] == "\r\n";
  }

  // ---------------------------------------------------------------------------
  // ChipInfo_GetSocName_ToBuf
  // ---------------------------------------------------------------------------

  /**
   * ChipInfo_GetSocName_ToBuf with the copy limit `limit` (the array size as
   * written): the text written into a `buflen`-byte buffer.  An invalid path
   * leaves the buffer untouched.
   */
  function GetSocNameToBuf(abi: Abi, path: string, buflen: nat, limit: nat): (text: string)
    ensures SocName(path).None? ==> text == []
  {
    match SocName(path)
    case None => []
    case Some(name) =>
      var shown := CopyName(name, limit).name;
      var t1 := PrintBuf(abi, [], buflen, "%s: ", [Str(shown)]);
      PrintBuf(abi, t1, buflen, "\r\n", [])
  }

  /** The two prints put "<shown>: \r\n" into the buffer, cut to `buflen` characters. */
  lemma PrintMessage(abi: Abi, shown: string, buflen: nat)
    ensures var msg := shown + ": " + "\r\n";
            var t1 := PrintBuf(abi, [], buflen, "%s: ", [Str(shown)]);
            PrintBuf(abi, t1, buflen, "\r\n", []) == msg[..Min(|msg|, buflen)]
  {
    var u1 := shown + ": ";
    var msg := u1 + "\r\n";
    NameItem(abi, shown);
    NewlineItem(abi);
    PrintBufFits(abi, [], buflen, "%s: ", [Str(shown)], u1);
    var t1 := PrintBuf(abi, [], buflen, "%s: ", [Str(shown)]);
    PrintBufFits(abi, t1, buflen, "\r\n", [], "\r\n");
    if buflen <= |u1| {
      assert t1 == u1[..buflen] == msg[..buflen];
    } else {
      assert t1 == u1;
      assert msg[..Min(|msg|, buflen)] == u1 + "\r\n"[..Min(2, buflen - |u1|)];
    }
  }

  /**
   * The buffer receives "<name>: \r\n" cut to `buflen` characters, with the
   * name cut to `limit` characters.
   */
  lemma GetSocNameText(abi: Abi, path: string, buflen: nat, limit: nat)
    requires SocName(path).Some?
    ensures var shown := CopyName(SocName(path).value, limit).name;
            var msg := shown + ": " + "\r\n";
            GetSocNameToBuf(abi, path, buflen, limit) == msg[..Min(|msg|, buflen)]
  {
    PrintMessage(abi, CopyName(SocName(path).value, limit).name, buflen);
  }
}
