/** GoogleDriveStorageRepository.getFileId: the file id of a Google Drive sharing URL, taken from
  * a whole-input match of ^https://drive.google.com/file/d/([^/]+)/view(?:\?.*)?$ . The dots in
  * the host are unescaped, so they match any character except a line terminator. */
module GoogleDriveUrl {
  import opened Wrappers
  import opened JavaText
  import opened StorageRouting

  /** The pattern's fixed prefix "https://drive.google.com/file/d/" is 32 characters. */
  const PREFIX_LENGTH: nat := 32

  /** The texts the pattern's prefix admits: its two dots are the characters `dot1` and `dot2`. */
  function DrivePrefix(dot1: char, dot2: char): (p: string)
    ensures |p| == PREFIX_LENGTH && p[13] == dot1 && p[20] == dot2
  {
    "https://drive" + [dot1] + "google" + [dot2] + "com/file/d/"
  }

  predicate MatchesPrefix(url: string) {
    |url| >= PREFIX_LENGTH
    && url[..PREFIX_LENGTH] == DrivePrefix(url[13], url[20])
    && !IsLineTerminator(url[13]) && !IsLineTerminator(url[20])
  }

  /** What may follow "/view": nothing, or '?' and a remainder without line terminators. */
  predicate IsQuery(q: string) {
    q == [] || (q[0] == '?' && NoLineTerminator(q[1..]))
  }

  /** getFileId: the text between the prefix and "/view"; IOException for any URL the pattern rejects. */
  function GetFileId(url: string): (r: Result<string>)
    ensures r.Err? ==> r.error.kind == IO
    ensures r.Ok? ==>
      && |r.value| > 0 && '/' !in r.value && MatchesPrefix(url)
      && PREFIX_LENGTH + |r.value| + 5 <= |url|
      && url[PREFIX_LENGTH..] == r.value + "/view" + url[PREFIX_LENGTH + |r.value| + 5..]
      && IsQuery(url[PREFIX_LENGTH + |r.value| + 5..])
  {
    var reject := Fail(IO, "Unrecognized URL for GoogleDrive, expecting "
      + "^https://drive.google.com/file/d/([^/]+)/view(?:\\?.*)?$ got: " + url);
    if !MatchesPrefix(url) then reject
    else
      var tail := url[PREFIX_LENGTH..];
      var slash := IndexOf(tail, '/');
      if slash <= 0 || !StartsWith(tail[slash..], "/view") || !IsQuery(tail[slash + 5..]) then reject
      else
        assert tail == tail[..slash] + "/view" + tail[slash + 5..];
        Ok(tail[..slash])
  }

  /** A URL made of an admitted prefix, a non-empty id without '/', and a remainder starting with '/'
    * is accepted iff the remainder is "/view" followed by nothing or a query; the id is then returned. */
  lemma GetFileIdOfParts(dot1: char, dot2: char, id: string, suffix: string)
    requires !IsLineTerminator(dot1) && !IsLineTerminator(dot2)
    requires |id| > 0 && '/' !in id
    requires |suffix| > 0 && suffix[0] == '/'
    ensures GetFileId(DrivePrefix(dot1, dot2) + id + suffix).Ok?
        <==> StartsWith(suffix, "/view") && IsQuery(suffix[5..])
    ensures GetFileId(DrivePrefix(dot1, dot2) + id + suffix).Ok? ==>
        GetFileId(DrivePrefix(dot1, dot2) + id + suffix).value == id
  {
    var prefix := DrivePrefix(dot1, dot2);
    var url := prefix + id + suffix;
    assert url[..PREFIX_LENGTH] == prefix;
    assert url[13] == dot1 && url[20] == dot2;
    var tail := url[PREFIX_LENGTH..];
    assert tail == id + ['/'] + suffix[1..];
    IndexOfAfter(id, '/', suffix[1..]);
    assert tail[|id|..] == suffix;
    assert tail[..|id|] == id;
  }

  /** The canonical host is one of the admitted prefixes. */
  lemma CanonicalPrefix()
    ensures DrivePrefix('.', '.') == "https://drive.google.com/file/d/"
  {
  }

  /** The unescaped dots let other hosts through: "https://drivexgoogleycom/file/d/X/view" gives "X". */
  lemma UnescapedDotsAccepted()
    ensures GetFileId(DrivePrefix('x', 'y') + "X" + "/view").Ok?
    ensures GetFileId(DrivePrefix('x', 'y') + "X" + "/view").value == "X"
  {
    GetFileIdOfParts('x', 'y', "X", "/view");
    assert "/view"[..5] == "/view";
  }

  /** Another ending after the id, or a line terminator in the query, is rejected. */
  lemma OtherEndingsRejected()
    ensures GetFileId(DrivePrefix('.', '.') + "X" + "/edit").Err?
    ensures GetFileId(DrivePrefix('.', '.') + "X" + "/view?a\nb").Err?
  {
    GetFileIdOfParts('.', '.', "X", "/edit");
    assert "/edit"[..5] != "/view" by { assert "/edit"[1] != "/view"[1]; }
    GetFileIdOfParts('.', '.', "X", "/view?a\nb");
    assert "/view?a\nb"[5..][1..] == "a\nb";
    assert IsLineTerminator("a\nb"[1]);
  }
}
