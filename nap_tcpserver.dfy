// The NAP's HTTP proxy, TCP side: how one segment read from an IP
// endpoint is classified (request method, FQDN from the Host header,
// resource from the request line) and how a segment without an HTTP
// header inherits the values of the request it continues.

module NapTcpServer {
  import opened Wrappers
  import opened Bytes
  import opened Text

  /** http_methods_t. Its header is not part of this model, so the
      constructors stand for the enum's values. */
  datatype HttpMethod = Unknown | Connect | Delete | Extension | Get | Head | Options | Post | Put | Trace

  /** std::string::npos, the largest size_t. */
  const NPOS: nat := 0xFFFF_FFFF_FFFF_FFFF

  /** ++ on a size_t position: npos + 1 wraps to 0. */
  function Inc(p: nat): (q: nat)
    requires p <= NPOS
    ensures q <= NPOS
  {
    if p == NPOS then 0 else p + 1
  }

  /** std::string::find as a size_t: npos when there is no occurrence. */
  function Find(s: string, pat: string, from: nat): (p: nat)
    requires |s| < NPOS
    ensures p <= NPOS
    ensures p != NPOS <==> FindFrom(s, pat, from).Some?
  {
    match FindFrom(s, pat, from)
    case None => NPOS
    case Some(i) => i
  }

  predicate Finds(s: string, pat: string, from: nat)
  {
    FindFrom(s, pat, from).Some?
  }

  /** Whether any keyword _httpMethod looks for occurs in s. */
  predicate MentionsMethod(s: string)
  {
    Finds(s, "connect", 0) || Finds(s, "delete", 0) || Finds(s, "extension", 0) ||
    Finds(s, "get", 0) || Finds(s, "head", 0) || Finds(s, "options", 0) ||
    Finds(s, "post", 0) || Finds(s, "put", 0) || Finds(s, "trace", 0)
  }

  /** One pass of _httpMethod's loop: the keywords are tried in the
      source's order, each from `from`, except the second "delete" probe,
      which reuses the "put" position and so has its own start. */
  function Round(s: string, from: nat, fromSecondDelete: nat): (r: HttpMethod)
    ensures Finds(s, "connect", from) ==> r == Connect
    ensures r == Unknown <==>
      !Finds(s, "connect", from) && !Finds(s, "delete", from) && !Finds(s, "extension", from) &&
      !Finds(s, "get", from) && !Finds(s, "head", from) && !Finds(s, "options", from) &&
      !Finds(s, "post", from) && !Finds(s, "put", from) && !Finds(s, "delete", fromSecondDelete) &&
      !Finds(s, "trace", from)
  {
    if Finds(s, "connect", from) then Connect
    else if Finds(s, "delete", from) then Delete
    else if Finds(s, "extension", from) then Extension
    else if Finds(s, "get", from) then Get
    else if Finds(s, "head", from) then Head
    else if Finds(s, "options", from) then Options
    else if Finds(s, "post", from) then Post
    else if Finds(s, "put", from) then Put
    else if Finds(s, "delete", fromSecondDelete) then Delete
    else if Finds(s, "trace", from) then Trace
    else Unknown
  }

  /** The method _httpMethod reports for the lower-cased 50-byte window s
      of a segment of packetSize bytes. The first pass searches from index
      1 (the second "delete" from 0, since the failed "put" left npos
      behind); every later pass starts at 0, because a failed search left
      npos and npos + 1 wraps to 0, so all later passes agree. */
  function MethodOf(s: string, packetSize: nat): (r: HttpMethod)
    ensures packetSize == 1 ==> r == Round(s, 1, 0)
    ensures r != Unknown ==> MentionsMethod(s)
  {
    FindsFromZero(s, "connect");
    FindsFromZero(s, "delete");
    FindsFromZero(s, "extension");
    FindsFromZero(s, "get");
    FindsFromZero(s, "head");
    FindsFromZero(s, "options");
    FindsFromZero(s, "post");
    FindsFromZero(s, "put");
    FindsFromZero(s, "trace");
    var first := Round(s, 1, 0);
    if first != Unknown || packetSize == 1 then first else Round(s, 0, 0)
  }

  /** The window _httpMethod searches: the first 50 bytes of the socket
      buffer, whatever the segment's length, lower-cased. */
  function MethodWindow(packet: string): (s: string)
    requires |packet| >= 50
    ensures |s| == 50
  {
    ToLower(packet[..50])
  }

  /** _httpMethod: passes until one finds a keyword or the size_t pass
      counter equals packetSize, each trying every keyword from one past
      where its previous search ended. A packetSize of 0 is met only once
      the counter has wrapped around. */
  method ParseMethod(packet: string, packetSize: uint16) returns (m: HttpMethod)
    requires |packet| >= 50
    ensures m == MethodOf(MethodWindow(packet), packetSize)
  {
    var s := MethodWindow(packet);
    var size: nat := packetSize;
    m := Unknown;
    var pos: nat := 0;
    var posConnect, posDelete, posExtension, posGet, posHead: nat := 0, 0, 0, 0, 0;
    var posOptions, posPost, posPut, posTrace: nat := 0, 0, 0, 0;
    while m == Unknown
      invariant pos <= NPOS && (size >= 1 ==> pos < size)
      invariant m != Unknown ==> m == MethodOf(s, size)
      invariant pos == 0 ==> posConnect == posDelete == posExtension == posGet == posHead == 0
      invariant pos == 0 ==> posOptions == posPost == posPut == posTrace == 0
      invariant pos >= 1 ==> posConnect == posDelete == posExtension == posGet == posHead == NPOS
      invariant pos >= 1 ==> posOptions == posPost == posPut == posTrace == NPOS
      invariant pos >= 1 ==> Round(s, 1, 0) == Unknown
      invariant pos >= 2 ==> Round(s, 0, 0) == Unknown
      decreases if pos < size then size - pos else NPOS + 1 - pos
    {
      pos := Inc(pos);
      posConnect := Find(s, "connect", Inc(posConnect));
      if posConnect != NPOS { m := Connect; break; }
      posDelete := Find(s, "delete", Inc(posDelete));
      if posDelete != NPOS { m := Delete; break; }
      posExtension := Find(s, "extension", Inc(posExtension));
      if posExtension != NPOS { m := Extension; break; }
      posGet := Find(s, "get", Inc(posGet));
      if posGet != NPOS { m := Get; break; }
      posHead := Find(s, "head", Inc(posHead));
      if posHead != NPOS { m := Head; break; }
      posOptions := Find(s, "options", Inc(posOptions));
      if posOptions != NPOS { m := Options; break; }
      posPost := Find(s, "post", Inc(posPost));
      if posPost != NPOS { m := Post; break; }
      posPut := Find(s, "put", Inc(posPut));
      if posPut != NPOS { m := Put; break; }
      posPut := Find(s, "delete", Inc(posPut));
      if posPut != NPOS { m := Delete; break; }
      posTrace := Find(s, "trace", Inc(posTrace));
      if posTrace != NPOS { m := Trace; break; }
      if pos == size { break; }
    }
  }

  /** A keyword found from index 1 is found from index 0 too. */
  lemma FindsFromZero(s: string, pat: string)
    ensures Finds(s, pat, 1) ==> Finds(s, pat, 0)
  {
    if Finds(s, pat, 1) {
      var p := FindFrom(s, pat, 1).value;
      assert OccursAt(s, pat, p);
    }
  }

  /** Once a segment has two bytes or more, the method is unknown exactly
      when no keyword occurs anywhere in the window. */
  lemma MethodUnknownIff(s: string, packetSize: nat)
    requires packetSize >= 2
    ensures MethodOf(s, packetSize) == Unknown <==> !MentionsMethod(s)
  {
    FindsFromZero(s, "connect");
    FindsFromZero(s, "delete");
    FindsFromZero(s, "extension");
    FindsFromZero(s, "get");
    FindsFromZero(s, "head");
    FindsFromZero(s, "options");
    FindsFromZero(s, "post");
    FindsFromZero(s, "put");
    FindsFromZero(s, "trace");
  }

  /** The method name is not read from the request line: a request line
      "get /post..." is reported as POST, because the first pass starts at
      index 1 and so misses the "get" at index 0 but finds "post" in the
      path. */
  lemma MethodFromPath(s: string, packetSize: nat)
    requires packetSize >= 1
    requires OccursAt(s, "get ", 0) && Finds(s, "post", 1)
    requires !Finds(s, "connect", 0) && !Finds(s, "delete", 0) && !Finds(s, "extension", 0)
    requires !Finds(s, "get", 1) && !Finds(s, "head", 0) && !Finds(s, "options", 0)
    ensures MethodOf(s, packetSize) == Post
  {
    FindsFromZero(s, "connect");
    FindsFromZero(s, "delete");
    FindsFromZero(s, "extension");
    FindsFromZero(s, "head");
    FindsFromZero(s, "options");
  }

  /** A one-byte segment gets a single pass, which never looks at index 0
      for "get": a window holding only "get" at its start is unknown for a
      one-byte segment and GET for a longer one. */
  lemma MethodAtStart(s: string)
    requires OccursAt(s, "get", 0) && !Finds(s, "get", 1)
    requires !Finds(s, "connect", 0) && !Finds(s, "delete", 0) && !Finds(s, "extension", 0)
    requires !Finds(s, "head", 0) && !Finds(s, "options", 0) && !Finds(s, "post", 0)
    requires !Finds(s, "put", 0) && !Finds(s, "trace", 0)
    ensures MethodOf(s, 1) == Unknown
    ensures MethodOf(s, 2) == Get
  {
    FindsFromZero(s, "connect");
    FindsFromZero(s, "delete");
    FindsFromZero(s, "extension");
    FindsFromZero(s, "head");
    FindsFromZero(s, "options");
    FindsFromZero(s, "post");
    FindsFromZero(s, "put");
    FindsFromZero(s, "trace");
  }

  /** The first index at or after `from` that holds c. */
  function FirstFrom(s: string, c: char, from: nat): (r: Option<nat>)
    ensures r.Some? ==> from <= r.value < |s| && s[r.value] == c
    ensures r.Some? ==> forall j :: from <= j < r.value ==> s[j] != c
    ensures r.None? ==> forall j :: from <= j < |s| ==> s[j] != c
    decreases |s| - from
  {
    if from >= |s| then None
    else if s[from] == c then Some(from)
    else FirstFrom(s, c, from + 1)
  }

  lemma {:induction false} FirstFromAt(s: string, c: char, from: nat, e: nat)
    requires from <= e < |s| && s[e] == c
    requires forall j :: from <= j < e ==> s[j] != c
    ensures FirstFrom(s, c, from) == Some(e)
    decreases e - from
  {
    if from < e {
      FirstFromAt(s, c, from + 1, e);
    }
  }

  lemma {:induction false} FirstFromNone(s: string, c: char, from: nat)
    requires forall j :: from <= j < |s| ==> s[j] != c
    ensures FirstFrom(s, c, from) == None
    decreases |s| - from
  {
    if from < |s| {
      FirstFromNone(s, c, from + 1);
    }
  }

  /** std::string::operator[] up to and including size(), where it reads
      the terminating '\0'. */
  function CharAt(s: string, i: nat): char
    requires i <= |s|
  {
    if i == |s| then '\0' else s[i]
  }

  /** The text _fqdn searches: at most the first 1000 bytes of the
      segment, lower-cased. */
  function FqdnWindow(packet: string, packetSize: nat): (s: string)
    requires packetSize <= |packet|
    ensures |s| <= packetSize && |s| <= 1000
  {
    ToLower(packet[..if packetSize > 1000 then 1000 else packetSize])
  }

  /** _fqdn on the window s, as written: "" without a "host: " (searched
      from index 1); otherwise what LineAsWritten makes of the text after
      it. bounded says that the segment is no longer than the window (at
      most 1000 bytes), so that the scan's bound on the segment size stops
      it one byte past the text. */
  function FqdnAsWritten(s: string, bounded: bool): (r: Option<string>)
    ensures FindFrom(s, "host: ", 1).None? ==> r == Some("")
    ensures r.Some? && FindFrom(s, "host: ", 1).Some? ==>
      FindFrom(s, "host: ", 1).value + 6 + |r.value| <= |s| &&
      r.value == s[FindFrom(s, "host: ", 1).value + 6..][..|r.value|]
  {
    match FindFrom(s, "host: ", 1)
    case None => Some("")
    case Some(p) => LineAsWritten(s, p + 6, bounded)
  }

  /** The header value starting at `start`, as the code copies it: the
      characters up to the next newline, less the last one. A line with
      no newline is scanned to one byte past the end of the text; when
      the text is the whole segment (bounded) the size bound stops the
      scan there and the copy yields the rest of the text. None stands for
      the two cases in which the code reads on past the end of the text: a
      newline right at `start` (fqdnLength - 1 wraps around, so the copy
      runs on), and no newline in a text cut short of the segment (the
      scan and the copy walk off the end). */
  function LineAsWritten(s: string, start: nat, bounded: bool): (r: Option<string>)
    ensures r.Some? ==> start + |r.value| <= |s| && r.value == s[start..start + |r.value|]
    ensures r.None? <==> (FirstFrom(s, '\n', start).None? && !(bounded && start <= |s|)) || FirstFrom(s, '\n', start) == Some(start)
  {
    match FirstFrom(s, '\n', start)
    case None => if bounded && start <= |s| then Some(s[start..]) else None
    case Some(e) => if e == start then None else Some(s[start..e - 1])
  }

  /** _fqdn: the length scan, bounded by the segment size, then the copy
      of all but the last character scanned. */
  method Fqdn(packet: string, packetSize: nat) returns (r: Option<string>)
    requires packetSize <= |packet|
    ensures r == FqdnAsWritten(FqdnWindow(packet, packetSize), packetSize <= 1000)
  {
    var s := FqdnWindow(packet, packetSize);
    var found := FindFrom(s, "host: ", 1);
    if found.None? {
      return Some("");
    }
    var pos: nat := found.value;
    var fqdnLength: nat := 0;
    var positionStart := pos + 6;
    var c := CharAt(s, positionStart);
    var overran := false;
    while !overran && c != '\n' && pos + 6 <= packetSize
      invariant pos + 6 == positionStart + fqdnLength <= |s| + 1
      invariant overran <==> pos + 6 == |s| + 1
      invariant overran ==> packetSize == |s|
      invariant !overran ==> c == CharAt(s, pos + 6)
      invariant forall j :: positionStart <= j < pos + 6 && j < |s| ==> s[j] != '\n'
      decreases |s| + 1 - (pos + 6)
    {
      fqdnLength := fqdnLength + 1;
      pos := pos + 1;
      if pos + 6 > |s| {
        // operator[] one past size(): the scan has left the text
        if pos + 6 <= packetSize {
          // and the size bound does not stop it
          return None;
        }
        overran := true;
      } else {
        c := CharAt(s, pos + 6);
      }
    }
    ghost var bounded := packetSize <= 1000;
    assert FqdnAsWritten(s, bounded) == LineAsWritten(s, positionStart, bounded);
    if overran {
      FirstFromNone(s, '\n', positionStart);
      assert bounded && positionStart + fqdnLength - 1 == |s|;
      assert LineAsWritten(s, positionStart, bounded) == Some(s[positionStart..]);
    } else {
      FirstFromAt(s, '\n', positionStart, positionStart + fqdnLength);
      assert LineAsWritten(s, positionStart, bounded) ==
        if fqdnLength == 0 then None else Some(s[positionStart..positionStart + fqdnLength - 1]);
    }
    if fqdnLength == 0 {
      // fqdnLength - 1 wraps around to the largest size_t
      return None;
    }
    var fqdn := CopyFrom(s, positionStart, fqdnLength - 1);
    return Some(fqdn);
  }

  /** The character-by-character copy of _fqdn: n characters from start. */
  method CopyFrom(s: string, start: nat, n: nat) returns (t: string)
    requires start + n <= |s|
    ensures t == s[start..start + n]
  {
    t := "";
    var it: nat := 0;
    while it < n
      invariant it <= n
      invariant t == s[start..start + it]
    {
      assert s[start..start + it + 1] == s[start..start + it] + [s[start + it]];
      t := t + [s[start + it]];
      it := it + 1;
    }
  }

  /** The FQDN as intended: the Host header's value, or "" without
      one. */
  function FqdnOf(s: string): (fqdn: string)
    ensures '\n' !in fqdn
  {
    match FindFrom(s, "host: ", 1)
    case None => ""
    case Some(p) => LineOf(s, p + 6)
  }

  /** The header value starting at `start` as intended: up to the end of
      its line, less a closing carriage return; empty for an empty line,
      and the rest of the text for an unterminated one. */
  function LineOf(s: string, start: nat): (v: string)
    ensures '\n' !in v
  {
    var e := match FirstFrom(s, '\n', start) case None => |s| case Some(e) => e;
    if e <= start then []
    else
      assert forall j :: start <= j < e ==> s[j] != '\n';
      if s[e - 1] == '\r' then s[start..e - 1] else s[start..e]
  }

  /** Wherever the code as written gives an answer for a line closed by
      "\r\n", it is the intended one. */
  lemma LineAgrees(s: string, start: nat, bounded: bool)
    requires FirstFrom(s, '\n', start).Some? && LineAsWritten(s, start, bounded).Some?
    requires s[FirstFrom(s, '\n', start).value - 1] == '\r'
    ensures LineAsWritten(s, start, bounded).value == LineOf(s, start)
  {
  }

  /** A newline straight after "host: " makes the code read past the
      text, where the intended FQDN is empty. */
  lemma FqdnAsWrittenBareHost(s: string, p: nat, bounded: bool)
    requires FindFrom(s, "host: ", 1) == Some(p)
    requires p + 6 < |s| && s[p + 6] == '\n'
    ensures FqdnAsWritten(s, bounded).None?
    ensures FqdnOf(s) == ""
  {
    FirstFromAt(s, '\n', p + 6, p + 6);
  }

  /** An unterminated line in a text cut short of its segment (a segment
      over 1000 bytes) makes the code read on past the text, where the
      intended value is the rest of it; in a whole segment the scan reads
      one byte past the text and the value is that rest. */
  lemma LineAsWrittenUnterminated(s: string, start: nat)
    requires start < |s| && s[|s| - 1] != '\r'
    requires forall j :: start <= j < |s| ==> s[j] != '\n'
    ensures LineAsWritten(s, start, false).None?
    ensures LineAsWritten(s, start, true) == Some(s[start..])
    ensures LineOf(s, start) == s[start..]
  {
    FirstFromNone(s, '\n', start);
  }

  /** With LF-only line ends the code drops the value's last character;
      the intended value keeps it. */
  lemma LineAsWrittenBareLf(s: string, start: nat, v: string, bounded: bool)
    requires |v| >= 1 && '\n' !in v && v[|v| - 1] != '\r'
    requires start + |v| < |s| && s[start..start + |v|] == v && s[start + |v|] == '\n'
    ensures LineAsWritten(s, start, bounded) == Some(v[..|v| - 1])
    ensures LineOf(s, start) == v
  {
    FirstNewlineAfter(s, start, v);
    assert s[start + |v| - 1] == v[|v| - 1];
    assert s[start..start + |v| - 1] == s[start..start + |v|][..|v| - 1];
  }

  /** s holds "<v>\r\n" at `start`, v being one line's worth of text. */
  predicate CrLfLine(s: string, start: nat, v: string)
  {
    '\n' !in v && '\r' !in v &&
    start + |v| + 1 < |s| && s[start..start + |v|] == v &&
    s[start + |v|] == '\r' && s[start + |v| + 1] == '\n'
  }

  /** A header line "<value>\r\n" yields its value both as written and as
      intended. */
  lemma LineCrLf(s: string, start: nat, v: string, bounded: bool)
    requires CrLfLine(s, start, v)
    ensures LineAsWritten(s, start, bounded) == Some(v)
    ensures LineOf(s, start) == v
  {
    assert s[start..start + |v| + 1] == v + "\r";
    FirstNewlineAfter(s, start, v + "\r");
  }

  /** The Host header of section 5.4 of RFC 7230, written
      "host: <value>\r\n" after the request line, yields its value both as
      written and as intended. */
  lemma FqdnHostHeader(s: string, p: nat, v: string, bounded: bool)
    requires FindFrom(s, "host: ", 1) == Some(p)
    requires CrLfLine(s, p + 6, v)
    ensures FqdnAsWritten(s, bounded) == Some(v)
    ensures FqdnOf(s) == v
  {
    HostAt(s, p, bounded);
    LineCrLf(s, p + 6, v, bounded);
  }

  lemma HostAt(s: string, p: nat, bounded: bool)
    requires FindFrom(s, "host: ", 1) == Some(p)
    ensures FqdnAsWritten(s, bounded) == LineAsWritten(s, p + 6, bounded)
    ensures FqdnOf(s) == LineOf(s, p + 6)
  {
  }

  lemma FirstNewlineAfter(s: string, start: nat, v: string)
    requires '\n' !in v && start + |v| < |s|
    requires s[start..start + |v|] == v && s[start + |v|] == '\n'
    ensures FirstFrom(s, '\n', start) == Some(start + |v|)
  {
    forall j | start <= j < start + |v|
      ensures s[j] != '\n'
    {
      assert s[j] == v[j - start];
    }
    FirstFromAt(s, '\n', start, start + |v|);
  }

  /** _resource on the segment's text, as written: "/" when no " /"
      follows index 1; otherwise "/" and what PathAsWritten makes of the
      text after the " /". */
  function ResourceAsWritten(s: string): (r: Option<string>)
    ensures r.Some? ==> |r.value| >= 1 && r.value[0] == '/' && ' ' !in r.value
    ensures FindFrom(s, " /", 1).None? ==> r == Some("/")
  {
    match FindFrom(s, " /", 1)
    case None => Some("/")
    case Some(p) => PathAsWritten(s, p + 2)
  }

  /** "/" and every character from `start` up to the next space. None
      stands for a path with no space after it, where the copy runs past
      the end of the text. */
  function PathAsWritten(s: string, start: nat): (r: Option<string>)
    ensures r.None? <==> forall j :: start <= j < |s| ==> s[j] != ' '
    ensures r.Some? ==> |r.value| >= 1 && r.value[0] == '/' && start + |r.value| - 1 <= |s| && r.value[1..] == s[start..start + |r.value| - 1] && ' ' !in r.value
  {
    match FirstFrom(s, ' ', start)
    case None => None
    case Some(q) => Some("/" + s[start..q])
  }

  /** _resource: copy characters after " /" until a space is read. */
  method Resource(packet: string, packetSize: nat) returns (r: Option<string>)
    requires packetSize <= |packet|
    ensures r == ResourceAsWritten(packet[..packetSize])
  {
    var s := packet[..packetSize];
    var resource := "/";
    var found := FindFrom(s, " /", 1);
    if found.None? {
      return Some(resource);
    }
    var pos: nat := found.value;
    ghost var start := pos + 2;
    var c := CharAt(s, pos + 2);
    while c != ' '
      invariant start <= pos + 2 <= |s|
      invariant c == CharAt(s, pos + 2)
      invariant resource == "/" + s[start..pos + 2]
      invariant forall j :: start <= j < pos + 2 ==> s[j] != ' '
      decreases |s| - (pos + 2)
    {
      resource := resource + [CharAt(s, pos + 2)];
      pos := pos + 1;
      if pos + 2 > |s| {
        // operator[] past size(): the copy has left the text
        return None;
      }
      c := CharAt(s, pos + 2);
    }
    assert FirstFrom(s, ' ', start) == Some(pos + 2);
    return Some(resource);
  }

  /** The resource as intended: "/" without a " /", otherwise the path
      PathOf reads after it. */
  function ResourceOf(s: string): (res: string)
    ensures |res| >= 1 && res[0] == '/'
    ensures forall i :: 1 <= i < |res| ==> res[i] != ' '
  {
    match FindFrom(s, " /", 1)
    case None => "/"
    case Some(p) => PathOf(s, p + 2)
  }

  /** "/" and the path from `start` up to the next space or the end of
      the text. It starts with "/" and holds no space after it. */
  function PathOf(s: string, start: nat): (res: string)
    ensures |res| >= 1 && res[0] == '/'
    ensures forall i :: 1 <= i < |res| ==> res[i] != ' '
  {
    var q := match FirstFrom(s, ' ', start) case None => |s| case Some(q) => q;
    if q <= start then "/"
    else
      assert forall j :: start <= j < q ==> s[j] != ' ';
      "/" + s[start..q]
  }

  lemma ResourceAt(s: string, p: nat)
    requires FindFrom(s, " /", 1) == Some(p)
    ensures ResourceAsWritten(s) == PathAsWritten(s, p + 2)
    ensures ResourceOf(s) == PathOf(s, p + 2)
  {
  }

  /** Wherever the code as written gives an answer, it is the intended
      one. */
  lemma PathAgrees(s: string, start: nat)
    requires PathAsWritten(s, start).Some?
    ensures PathAsWritten(s, start).value == PathOf(s, start)
  {
  }

  /** A path that runs to the end of the segment makes the code read past
      the text, where the intended resource is the whole path. */
  lemma PathAsWrittenUnterminated(s: string, start: nat)
    requires start <= |s|
    requires forall j :: start <= j < |s| ==> s[j] != ' '
    ensures PathAsWritten(s, start).None?
    ensures PathOf(s, start) == "/" + s[start..]
  {
    FirstFromNone(s, ' ', start);
  }

  /** s holds "<path> " at `start`. */
  predicate SpaceTerminated(s: string, start: nat, path: string)
  {
    ' ' !in path && start + |path| < |s| &&
    s[start..start + |path|] == path && s[start + |path|] == ' '
  }

  /** A request path followed by a space yields "/" and the path. */
  lemma PathTerminated(s: string, start: nat, path: string)
    requires SpaceTerminated(s, start, path)
    ensures PathAsWritten(s, start) == Some("/" + path)
    ensures PathOf(s, start) == "/" + path
  {
    forall j | start <= j < start + |path|
      ensures s[j] != ' '
    {
      assert s[j] == path[j - start];
    }
    FirstFromAt(s, ' ', start, start + |path|);
  }

  /** A request line "<method> /<path> HTTP/1.1" yields "/<path>". */
  lemma ResourceRequestLine(s: string, p: nat, path: string)
    requires FindFrom(s, " /", 1) == Some(p)
    requires SpaceTerminated(s, p + 2, path)
    ensures ResourceAsWritten(s) == Some("/" + path)
    ensures ResourceOf(s) == "/" + path
  {
    ResourceAt(s, p);
    PathTerminated(s, p + 2, path);
  }

  /** What one TCP session remembers of the last request that carried an
      HTTP header, for the segments that continue its body. */
  class TcpSession {
    var requestMethod: HttpMethod
    var fqdn: string
    var resource: string

    constructor()
      ensures requestMethod == Unknown && fqdn == "" && resource == ""
    {
      requestMethod := Unknown;
      fqdn := "";
      resource := "";
    }

    /** One segment of bytesWritten bytes read into the socket buffer
        `packet`, its length kept in the uint16_t packetSize: a segment
        whose method is unknown continues the previous request and takes
        its method, FQDN and resource; any other segment starts a request
        and its values are stored. The segment is handed to the HTTP
        handler exactly when the FQDN is non-empty. */
    method Segment(packet: string, bytesWritten: nat)
      returns (m: HttpMethod, f: string, res: string, forward: bool)
      requires |packet| >= 50 && 1 <= bytesWritten <= |packet|
      modifies this
      ensures var packetSize := ToUint16(bytesWritten);
        MethodOf(MethodWindow(packet), packetSize) == Unknown ==>
          m == old(requestMethod) && f == old(fqdn) && res == old(resource)
      ensures var packetSize := ToUint16(bytesWritten);
        MethodOf(MethodWindow(packet), packetSize) != Unknown ==>
          m == MethodOf(MethodWindow(packet), packetSize) &&
          f == FqdnOf(FqdnWindow(packet, packetSize)) &&
          res == ResourceOf(packet[..packetSize])
      ensures requestMethod == m && fqdn == f && resource == res
      ensures forward <==> |f| > 0
    {
      var packetSize := ToUint16(bytesWritten);
      m := ParseMethod(packet, packetSize);
      if m == Unknown {
        m, f, res := requestMethod, fqdn, resource;
      } else {
        requestMethod := m;
        f := FqdnOf(FqdnWindow(packet, packetSize));
        fqdn := f;
        res := ResourceOf(packet[..packetSize]);
        resource := res;
      }
      forward := |f| > 0;
    }
  }
}
