/** Reassembly of stratum lines from whatever pieces the socket delivers, in a
    growing buffer that holds a C string. */
module Stratum {
  import opened Bytes

  const RBUFSIZE: nat := 2048
  const NL: Byte := 10

  datatype Option<T> = None | Some(value: T)

  /** What one recv and the clock after it bring. late: the time allowed is over.
      Blocked: nothing yet, with the result of the short wait that follows. A recv of
      no bytes is Gone, like any other failure. */
  datatype Receive = Data(bytes: seq<Byte>, late: bool) | Blocked(ready: bool, late: bool) | Gone

  /** A C string ends at the first zero byte. */
  function CString(s: seq<Byte>): (t: seq<Byte>)
    ensures 0 !in t && t <= s
    ensures 0 !in s ==> t == s
  {
    if s == [] || s[0] == 0 then [] else [s[0]] + CString(s[1..])
  }

  // strtok and the removal of its token, on values.

  /** The number of newlines at the start. */
  function Leading(buf: seq<Byte>): (i: nat)
    ensures i <= |buf| && (i < |buf| ==> buf[i] != NL) && forall k :: 0 <= k < i ==> buf[k] == NL
  {
    if buf != [] && buf[0] == NL then 1 + Leading(buf[1..]) else 0
  }

  /** The first newline from i on, or the end. */
  function Until(buf: seq<Byte>, i: nat): (j: nat)
    requires i <= |buf|
    ensures i <= j <= |buf| && (j < |buf| ==> buf[j] == NL) && forall k :: i <= k < j ==> buf[k] != NL
    decreases |buf| - i
  {
    if i == |buf| || buf[i] == NL then i else Until(buf, i + 1)
  }

  /** The line taken from a buffer and what the buffer holds afterwards. The removal
      counts the token's length from the start of the buffer, so after leading
      newlines it keeps only what is in front of the zero that ended the token. */
  function TakeLine(buf: seq<Byte>): (Option<seq<Byte>>, seq<Byte>) {
    var i := Leading(buf);
    if i == |buf| then (None, buf)
    else
      var j := Until(buf, i);
      var len := j - i;
      (Some(buf[i..j]),
       if |buf| <= len + 1 then [] else if i == 0 then buf[len + 1..] else buf[len + 1..j])
  }

  /** A line is taken off without loss exactly when the buffer holds a newline and
      does not begin with one. */
  lemma TakesOffALine(buf: seq<Byte>)
    ensures (var (line, rest) := TakeLine(buf); line.Some? && buf == line.value + [NL] + rest)
       <==> buf != [] && buf[0] != NL && NL in buf
  {
    var i := Leading(buf);
    if i < |buf| {
      var j := Until(buf, i);
      var (line, rest) := TakeLine(buf);
      var whole := line.value + [NL] + rest;
      assert line.value == buf[i..j];
      if i > 0 {
        assert j > i && whole[0] == buf[i];
      } else if j < |buf| {
        assert j + 1 < |buf| ==> rest == buf[j + 1..];
        assert buf == buf[..j] + [buf[j]] + buf[j + 1..];
        assert whole == buf;
      } else {
        assert |whole| > |buf| && NL !in buf[0..j];
      }
    }
  }

  /** An empty line in the buffer takes the lines after its successor with it. */
  lemma EmptyLineLoses(line: seq<Byte>, more: seq<Byte>)
    requires line != [] && NL !in line
    ensures TakeLine([NL] + line + [NL] + more) == (Some(line), [])
  {
    var buf := [NL] + line + [NL] + more;
    var k := 1 + |line|;
    assert buf[0] == NL && buf[1] == line[0] && buf[k] == NL;
    assert forall i :: 1 <= i < k ==> buf[i] == line[i - 1];
    assert Leading(buf) == 1;
    assert Until(buf, 1) == k;
    assert buf[1..k] == line;
    assert TakeLine(buf).0 == Some(line);
    assert TakeLine(buf).1 == buf[k..k] == [];
  }

  /** There is no line exactly when the buffer holds newlines only. */
  lemma NoLineIff(buf: seq<Byte>)
    ensures TakeLine(buf).0 == None <==> forall k :: 0 <= k < |buf| ==> buf[k] == NL
    ensures TakeLine(buf).0 == None ==> TakeLine(buf).1 == buf
  {
    var i := Leading(buf);
    if i < |buf| {
      assert buf[i] != NL;
    }
  }

  /** A line is never empty, and what stays is shorter by more than the line. */
  lemma LineShrinks(buf: seq<Byte>)
    ensures var (line, rest) := TakeLine(buf);
      line.Some? ==> line.value != [] && NL !in line.value && |rest| < |buf|
  {
    var i := Leading(buf);
    if i < |buf| {
      var j := Until(buf, i);
      assert j > i;
      assert forall k :: 0 <= k < j - i ==> buf[i..j][k] == buf[i + k];
    }
  }

  // One call, on values.

  /** The loop: receives until there is a newline, or no more time, or no more socket. */
  function Receiving(text: seq<Byte>, input: seq<Receive>): (r: (bool, seq<Byte>, nat))
    ensures r.2 <= |input|
    ensures 0 !in text ==> 0 !in r.1
    decreases |input|
  {
    if input == [] then (false, text, 0)
    else
      match input[0]
      case Gone => (false, text, 1)
      case Blocked(ready, late) => if !ready || late then (ready, text, 1) else Counted(Receiving(text, input[1..]))
      case Data(bytes, late) =>
        var t := text + CString(bytes);
        if late || NL in t then (true, t, 1) else Counted(Receiving(t, input[1..]))
  }

  function Counted(r: (bool, seq<Byte>, nat)): (bool, seq<Byte>, nat) {
    (r.0, r.1, r.2 + 1)
  }

  /** The result of a call: the line, the buffer, and how much of the input was received. */
  function RecvLine(text: seq<Byte>, ready: bool, input: seq<Receive>): (r: (Option<seq<Byte>>, seq<Byte>, nat))
    ensures r.2 <= |input|
  {
    if NL in text then
      var (line, rest) := TakeLine(text);
      (line, rest, 0)
    else if !ready then (None, text, 0)
    else
      var (ok, t, used) := Receiving(text, input);
      if !ok then (None, t, used)
      else
        var (line, rest) := TakeLine(t);
        (line, rest, used)
  }

  // The buffer.

  class Context {
    var sockbuf: array<Byte>
    ghost var text: seq<Byte>   // the C string in it

    /** There is always one byte more than the string and its zero. */
    ghost predicate Valid()
      reads this, sockbuf
    {
      |text| + 2 <= sockbuf.Length && sockbuf.Length % RBUFSIZE == 0 &&
      0 !in text && sockbuf[..|text|] == text && sockbuf[|text|] == 0
    }

    constructor ()
      ensures Valid() && fresh(sockbuf) && text == []
    {
      sockbuf := new Byte[RBUFSIZE](i => 0);
      text := [];
    }

    lemma Characters()
      requires Valid()
      ensures forall k :: 0 <= k < |text| ==> sockbuf[k] == text[k] && sockbuf[k] != 0
    {
      assert forall k :: 0 <= k < |text| ==> sockbuf[..|text|][k] == text[k];
    }

    method StrLen() returns (n: nat)
      requires Valid()
      ensures n == |text|
    {
      Characters();
      n := 0;
      while sockbuf[n] != 0
        invariant n <= |text|
        decreases |text| - n
      {
        n := n + 1;
      }
    }

    /** The string in the buffer. */
    method Text() returns (s: seq<Byte>)
      requires Valid()
      ensures s == text
    {
      var n := StrLen();
      s := sockbuf[..n];
    }

    /** strstr for a newline. */
    method HasNewline() returns (found: bool)
      requires Valid()
      ensures found <==> NL in text
    {
      Characters();
      var n := StrLen();
      found := false;
      for i := 0 to n
        invariant !found && NL !in text[..i]
      {
        if sockbuf[i] == NL {
          return true;
        }
      }
      assert text[..n] == text;
    }

    /** realloc, to the next size above this one. */
    method Grow(snew: nat)
      requires Valid() && snew >= sockbuf.Length
      modifies this
      ensures Valid() && text == old(text) && sockbuf.Length > snew && fresh(sockbuf)
    {
      hide CString;
      var bigger := new Byte[snew + (RBUFSIZE - snew % RBUFSIZE)];
      Rounded(snew);
      CopyInto(bigger, 0, sockbuf[..]);
      ghost var kept := bigger[..sockbuf.Length];
      assert kept == sockbuf[..];
      assert bigger[..|text|] == kept[..|text|] == sockbuf[..|text|] && bigger[|text|] == kept[|text|];
      sockbuf := bigger;
    }

    /** Grows the buffer when the string and its zero would reach its end. */
    method Append(s: seq<Byte>)
      requires Valid() && 0 !in s
      modifies this, sockbuf
      ensures Valid() && text == old(text) + s && (sockbuf == old(sockbuf) || fresh(sockbuf))
      ensures sockbuf.Length >= old(sockbuf.Length)
    {
      hide CString;
      var length := StrLen();
      var snew := length + |s| + 1;
      if snew >= sockbuf.Length {
        Grow(snew);
      }
      ghost var was := sockbuf[..length];
      CopyInto(sockbuf, length, s + [0]);
      text := text + s;
      Cut(sockbuf[..], was, s, length + |s| + 1);
    }

    lemma Cut(buf: seq<Byte>, was: seq<Byte>, s: seq<Byte>, n: nat)
      requires n == |was| + |s| + 1 <= |buf| && buf[..n] == was + (s + [0])
      ensures buf[..n - 1] == was + s && buf[n - 1] == 0
    {
      assert buf[..n][..n - 1] == buf[..n - 1] && buf[..n][n - 1] == buf[n - 1];
    }

    lemma Rounded(n: nat)
      ensures (n + (RBUFSIZE - n % RBUFSIZE)) % RBUFSIZE == 0 && n + (RBUFSIZE - n % RBUFSIZE) > n
    {
    }

    /** strtok: where the token begins and ends, if there is one. */
    method Token() returns (i: nat, j: nat)
      requires Valid()
      ensures i == Leading(text) && (i < |text| ==> j == Until(text, i))
    {
      Characters();
      var n := StrLen();
      i := 0;
      while i < n && sockbuf[i] == NL
        invariant i <= Leading(text)
      {
        i := i + 1;
      }
      j := i;
      while j < n && sockbuf[j] != NL
        invariant i == Leading(text) && i <= j <= Until(text, i)
      {
        j := j + 1;
      }
    }

    /** strtok, strdup and the removal of the token. */
    method Take() returns (line: Option<seq<Byte>>)
      requires Valid()
      modifies this`text, sockbuf
      ensures Valid() && (line, text) == TakeLine(old(text))
    {
      hide Leading, Until;
      var buflen := StrLen();
      var i, j := Token();
      if i == buflen {
        return None;
      }
      Characters();
      line := Some(sockbuf[i..j]);
      assert sockbuf[i..j] == text[i..j];
      Remove(buflen, i, j);
    }

    /** Ends the token with a zero; then everything behind as many bytes as it had is
        moved to the front, with its zero and one byte more. */
    method Remove(buflen: nat, i: nat, j: nat)
      requires Valid() && i <= j <= |text| == buflen && (i == 0 || i < j)
      modifies this`text, sockbuf
      ensures Valid()
      ensures var buf, len := old(text), j - i;
              text == if |buf| <= len + 1 then [] else if i == 0 then buf[len + 1..] else buf[len + 1..j]
    {
      hide CString;
      Characters();
      var len := j - i;
      if j < buflen {
        sockbuf[j] := 0;
      }
      if buflen > len + 1 {
        ghost var end := if i == 0 then buflen else j;
        NoZero(text, len + 1, end);
        assert sockbuf[len + 1..end] == text[len + 1..end];
        MoveText(len + 1, buflen - len + 1, end);
      } else {
        sockbuf[0] := 0;
        text := [];
      }
    }

    lemma NoZero(s: seq<Byte>, i: nat, j: nat)
      requires 0 !in s && i <= j <= |s|
      ensures 0 !in s[i..j]
    {
    }

    /** memmove to the front of the string that goes up to end. */
    method MoveText(from: nat, count: nat, ghost end: nat)
      requires from <= end < from + count <= sockbuf.Length && sockbuf.Length % RBUFSIZE == 0
      requires 0 < from && 0 !in sockbuf[from..end] && sockbuf[end] == 0
      modifies this`text, sockbuf
      ensures Valid() && text == old(sockbuf[from..end])
    {
      ghost var moved := sockbuf[from..end];
      ghost var behind := sockbuf[end..from + count];
      assert sockbuf[from..from + count] == moved + behind;
      CopyInto(sockbuf, 0, sockbuf[from..from + count]);
      text := moved;
      Front(sockbuf[..], moved, behind);
    }

    lemma Front(buf: seq<Byte>, moved: seq<Byte>, behind: seq<Byte>)
      requires behind != [] && moved + behind <= buf
      ensures buf[..|moved|] == moved && buf[|moved|] == behind[0]
    {
    }

    /** One line, or nothing if the socket fails or brings nothing in time. ready says
        that the socket had something at first; where input ends, the socket is closed. */
    method Receive(ready: bool, input: seq<Receive>) returns (line: Option<seq<Byte>>, used: nat)
      requires Valid()
      modifies this, sockbuf
      ensures Valid() && (line, text, used) == RecvLine(old(text), ready, input)
      ensures sockbuf == old(sockbuf) || fresh(sockbuf)
    {
      hide TakeLine, CString, Receiving, Skipped;
      used := 0;
      var complete := HasNewline();
      if !complete {
        if !ready {
          return None, 0;
        }
        var more := true;
        assert input[0..] == input;
        SkipNone(Receiving(text, input));
        while more
          invariant Valid() && used <= |input| && (sockbuf == old(sockbuf) || fresh(sockbuf))
          invariant more ==> NL !in text && Receiving(old(text), input) == Skipped(Receiving(text, input[used..]), used)
          invariant !more ==> Receiving(old(text), input) == (true, text, used)
          decreases |input| - used, more
        {
          ReceivingNext(text, input[used..], used);
          if used == |input| {
            return None, used;
          }
          var e := input[used];
          assert input[used..][1..] == input[used + 1..];
          used := used + 1;
          match e {
            case Gone =>
              return None, used;
            case Blocked(again, late) =>
              if !again {
                return None, used;
              }
              more := !late;
            case Data(bytes, late) =>
              Append(CString(bytes));
              complete := HasNewline();
              more := !late && !complete;
          }
        }
      }
      line := Take();
    }
  }

  function Skipped(r: (bool, seq<Byte>, nat), n: nat): (bool, seq<Byte>, nat) {
    (r.0, r.1, r.2 + n)
  }

  lemma SkipNone(r: (bool, seq<Byte>, nat))
    ensures Skipped(r, 0) == r
  {
  }

  lemma ReceivingNext(text: seq<Byte>, rest: seq<Receive>, used: nat)
    ensures rest == [] || rest[0].Gone? ==> Skipped(Receiving(text, rest), used) == (false, text, used + if rest == [] then 0 else 1)
    ensures rest != [] && rest[0].Blocked? && (!rest[0].ready || rest[0].late) ==>
      Skipped(Receiving(text, rest), used) == (rest[0].ready, text, used + 1)
    ensures rest != [] && rest[0].Blocked? && rest[0].ready && !rest[0].late ==>
      Skipped(Receiving(text, rest), used) == Skipped(Receiving(text, rest[1..]), used + 1)
    ensures rest != [] && rest[0].Data? && (rest[0].late || NL in text + CString(rest[0].bytes)) ==>
      Skipped(Receiving(text, rest), used) == (true, text + CString(rest[0].bytes), used + 1)
    ensures rest != [] && rest[0].Data? && !rest[0].late && NL !in text + CString(rest[0].bytes) ==>
      Skipped(Receiving(text, rest), used) == Skipped(Receiving(text + CString(rest[0].bytes), rest[1..]), used + 1)
  {
    hide CString;
  }

  /** A buffer of newlines only is the end: a call neither receives nor returns a line. */
  lemma StuckOnNewlines(text: seq<Byte>, ready: bool, input: seq<Receive>)
    requires text != [] && forall k :: 0 <= k < |text| ==> text[k] == NL
    ensures RecvLine(text, ready, input) == (None, text, 0)
  {
    assert text[0] == NL;
    NoLineIff(text);
  }

  /** When the time is over, the part of a line that has arrived is handed out as a line. */
  lemma LateTearsALine(text: seq<Byte>, bytes: seq<Byte>, input: seq<Receive>)
    requires var t := text + CString(bytes); t != [] && NL !in t
    ensures RecvLine(text, true, [Data(bytes, true)] + input) == (Some(text + CString(bytes)), [], 1)
  {
    var t := text + CString(bytes);
    assert forall k :: 0 <= k < |text| ==> text[k] == t[k];
    assert t[0] != NL && t[0..|t|] == t;
  }

  // Whole sessions.

  /** What reaches the buffer: of each receive, the bytes before its first zero. */
  function Received(input: seq<Receive>): seq<Byte> {
    if input == [] then []
    else (if input[0].Data? then CString(input[0].bytes) else []) + Received(input[1..])
  }

  /** What the socket sent. */
  function Sent(input: seq<Receive>): seq<Byte> {
    if input == [] then []
    else (if input[0].Data? then input[0].bytes else []) + Sent(input[1..])
  }

  lemma {:induction false} CutLength(bytes: seq<Byte>)
    ensures |CString(bytes)| <= |bytes|
    ensures |CString(bytes)| == |bytes| <==> 0 !in bytes
  {
    if bytes != [] && bytes[0] != 0 {
      CutLength(bytes[1..]);
      assert bytes == [bytes[0]] + bytes[1..];
    }
  }

  /** Nothing is cut off exactly if no zero was sent. */
  lemma {:induction false} AllReceivedIff(input: seq<Receive>)
    ensures |Received(input)| <= |Sent(input)|
    ensures Received(input) == Sent(input) <==> 0 !in Sent(input)
  {
    hide CString;
    if input != [] {
      AllReceivedIff(input[1..]);
      if input[0].Data? {
        var bytes := input[0].bytes;
        CutLength(bytes);
        CutWhole(bytes);
        if 0 !in bytes {
          Cancel(bytes, Received(input[1..]), Sent(input[1..]));
        } else {
          assert |Received(input)| < |Sent(input)|;
        }
      } else {
        assert Received(input) == Received(input[1..]) && Sent(input) == Sent(input[1..]);
      }
    }
  }

  lemma Cancel(a: seq<Byte>, b: seq<Byte>, c: seq<Byte>)
    ensures a + b == a + c <==> b == c
  {
    assert (a + b)[|a|..] == b && (a + c)[|a|..] == c;
  }

  lemma CutWhole(bytes: seq<Byte>)
    ensures 0 !in bytes ==> CString(bytes) == bytes
  {
  }

  /** No receive fails, and time is not up. */
  predicate Healthy(input: seq<Receive>) {
    forall k :: 0 <= k < |input| ==>
      match input[k]
      case Data(_, late) => !late
      case Blocked(ready, late) => ready && !late
      case Gone => false
  }

  /** No line is empty. */
  predicate Clean(s: seq<Byte>) {
    (s != [] ==> s[0] != NL) && forall k :: 0 < k < |s| && s[k - 1] == NL ==> s[k] != NL
  }

  /** Whatever happens, text and what is still to come stay what they were. */
  lemma {:induction false} ReceivingKeeps(text: seq<Byte>, input: seq<Receive>)
    ensures var (_, t, used) := Receiving(text, input); t + Received(input[used..]) == text + Received(input)
    decreases |input|
  {
    hide CString;
    if input != [] {
      var part := if input[0].Data? then CString(input[0].bytes) else [];
      var t, more := text + part, Received(input[1..]);
      assert t + more == text + (part + more);
      assert text + [] == text;
      if input[0].Gone? || (input[0].Blocked? && (!input[0].ready || input[0].late)) || (input[0].Data? && (input[0].late || NL in t)) {
      } else {
        ReceivingKeeps(t, input[1..]);
        var used := Receiving(t, input[1..]).2;
        assert input[used + 1..] == input[1..][used..];
      }
    }
  }

  lemma {:induction false} ReceivingHealthy(text: seq<Byte>, input: seq<Receive>)
    requires Healthy(input) && NL !in text
    ensures var (ok, t, used) := Receiving(text, input); (ok ==> NL in t) && (!ok ==> used == |input| && NL !in t)
    decreases |input|
  {
    hide CString;
    if input != [] {
      var t := if input[0].Data? then text + CString(input[0].bytes) else text;
      if NL !in t {
        HealthyRest(input, 1);
        ReceivingHealthy(t, input[1..]);
      }
    }
  }

  lemma HealthyRest(input: seq<Receive>, n: nat)
    requires Healthy(input) && n <= |input|
    ensures Healthy(input[n..])
  {
  }

  /** A call that returns a line leaves less to come. */
  lemma CallShrinks(text: seq<Byte>, input: seq<Receive>)
    ensures var (line, rest, used) := RecvLine(text, true, input);
      line.Some? ==> line.value != [] && |rest + Received(input[used..])| < |text + Received(input)|
  {
    hide Receiving, TakeLine, Received;
    assert input[0..] == input;
    var (ok, t, used) := Receiving(text, input);
    ReceivingKeeps(text, input);
    LineShrinks(text);
    LineShrinks(t);
  }

  /** A call that returns a line loses nothing exactly when what it had in the buffer, with
      what it received, holds a newline and does not begin with one. */
  lemma CallLosesNothingIff(text: seq<Byte>, input: seq<Receive>)
    ensures var (line, rest, used) := RecvLine(text, true, input);
      var got := text + Received(input[..used]);
      line.Some? ==> (got == line.value + [NL] + rest <==> got != [] && got[0] != NL && NL in got)
  {
    hide Receiving, TakeLine, Received;
    ReceivedPrefix(text, input);
    NothingReceived();
    assert text + [] == text && input[..0] == [];
    TakesOffALine(text);
    TakesOffALine(Receiving(text, input).1);
  }

  lemma ReceivedPrefix(text: seq<Byte>, input: seq<Receive>)
    ensures var (_, t, used) := Receiving(text, input); t == text + Received(input[..used])
  {
    hide Receiving, Received;
    var (_, t, used) := Receiving(text, input);
    ReceivingKeeps(text, input);
    ReceivedConcat(input[..used], input[used..]);
    assert input[..used] + input[used..] == input;
    CancelEnd(t, text, Received(input[..used]), Received(input[used..]));
  }

  lemma CancelEnd(t: seq<Byte>, a: seq<Byte>, b: seq<Byte>, end: seq<Byte>)
    requires t + end == a + (b + end)
    ensures t == a + b
  {
    assert t == (t + end)[..|t|] && a + b == (a + (b + end))[..|a + b|];
  }

  lemma {:induction false} ReceivedConcat(a: seq<Receive>, b: seq<Receive>)
    ensures Received(a + b) == Received(a) + Received(b)
  {
    hide CString;
    if a == [] {
      assert a + b == b && [] + Received(b) == Received(b);
    } else {
      assert (a + b)[1..] == a[1..] + b && (a + b)[0] == a[0];
      ReceivedConcat(a[1..], b);
      var part := if a[0].Data? then CString(a[0].bytes) else [];
      assert part + (Received(a[1..]) + Received(b)) == part + Received(a[1..]) + Received(b);
    }
  }

  /** Calls until there is no line: the lines, and what is left in the buffer. */
  function Calls(text: seq<Byte>, input: seq<Receive>): (seq<seq<Byte>>, seq<Byte>)
    decreases |text + Received(input)|
  {
    CallShrinks(text, input);
    var (line, rest, used) := RecvLine(text, true, input);
    if line == None then ([], rest)
    else
      var more := Calls(rest, input[used..]);
      ([line.value] + more.0, more.1)
  }

  /** The lines that a stream has ended, and what comes after the last newline. */
  function SplitLines(s: seq<Byte>): (r: (seq<seq<Byte>>, seq<Byte>))
    ensures NL !in r.1
    decreases |s|
  {
    if NL !in s then ([], s)
    else
      var j := Until(s, 0);
      var r := SplitLines(s[j + 1..]);
      ([s[..j]] + r.0, r.1)
  }

  function Joined(lines: seq<seq<Byte>>): seq<Byte> {
    if lines == [] then [] else lines[0] + [NL] + Joined(lines[1..])
  }

  lemma JoinedCons(line: seq<Byte>, lines: seq<seq<Byte>>)
    ensures Joined([line] + lines) == line + [NL] + Joined(lines)
  {
    assert ([line] + lines)[1..] == lines;
  }

  /** Joined with newlines and followed by the rest, the lines are the stream. */
  lemma {:induction false} SplitJoined(s: seq<Byte>)
    ensures Joined(SplitLines(s).0) + SplitLines(s).1 == s
    ensures forall k :: 0 <= k < |SplitLines(s).0| ==> NL !in SplitLines(s).0[k]
    decreases |s|
  {
    hide Until, SplitLines, Joined;
    SplitStep(s);
    if NL in s {
      var j := Until(s, 0);
      var r := SplitLines(s[j + 1..]);
      SplitJoined(s[j + 1..]);
      JoinedCons(s[..j], r.0);
      Associate(s[..j], Joined(r.0), r.1);
      assert s == s[..j] + [NL] + s[j + 1..];
    }
  }

  lemma SplitStep(s: seq<Byte>)
    ensures NL !in s ==> SplitLines(s) == ([], s) && Joined([]) + s == s
    ensures NL in s ==>
      (var j := Until(s, 0);
       j < |s| && s[j] == NL && NL !in s[..j] &&
       SplitLines(s) == ([s[..j]] + SplitLines(s[j + 1..]).0, SplitLines(s[j + 1..]).1))
  {
  }

  lemma SplitFirst(line: seq<Byte>, rest: seq<Byte>)
    requires NL !in line
    ensures SplitLines(line + [NL] + rest) == ([line] + SplitLines(rest).0, SplitLines(rest).1)
  {
    var s := line + [NL] + rest;
    assert s[|line|] == NL;
    assert forall k :: 0 <= k < |line| ==> s[k] == line[k];
    assert Until(s, 0) == |line|;
    assert s[..|line|] == line && s[|line| + 1..] == rest;
  }

  /** One call on a healthy socket: a line and the rest are all there was, or there
      is no line in all that is received. */
  lemma CallKeepsStream(text: seq<Byte>, input: seq<Receive>)
    requires Healthy(input) && Clean(text + Received(input))
    ensures var (line, rest, used) := RecvLine(text, true, input);
      match line
      case Some(l) => NL !in l && text + Received(input) == l + [NL] + (rest + Received(input[used..]))
      case None => used == |input| && rest == text + Received(input) && NL !in rest
  {
    hide Receiving, TakeLine, Healthy, Clean, Received;
    assert input[0..] == input && input[|input|..] == [];
    if NL in text {
      TakeKeepsStream(text, Received(input));
    } else {
      ReceivingHealthy(text, input);
      ReceivingKeeps(text, input);
      var (ok, t, used) := Receiving(text, input);
      if ok {
        TakeKeepsStream(t, Received(input[used..]));
      } else {
        NothingReceived();
        assert t + [] == t;
      }
    }
  }

  lemma NothingReceived()
    ensures Received([]) == []
  {
  }

  lemma TakeKeepsStream(t: seq<Byte>, more: seq<Byte>)
    requires NL in t && Clean(t + more)
    ensures var (line, rest) := TakeLine(t);
      line.Some? && NL !in line.value && t + more == line.value + [NL] + (rest + more)
  {
    hide TakeLine;
    assert (t + more)[0] == t[0];
    TakesOffALine(t);
    LineShrinks(t);
    var (line, rest) := TakeLine(t);
    assert line.value + [NL] + rest + more == line.value + [NL] + (rest + more);
  }

  lemma CleanRest(line: seq<Byte>, rest: seq<Byte>)
    requires Clean(line + [NL] + rest)
    ensures Clean(rest)
  {
    var s := line + [NL] + rest;
    assert s[|line|] == NL;
    assert forall k :: 0 <= k < |rest| ==> rest[k] == s[|line| + 1 + k];
  }

  /** Whatever the boundaries of the receives, the lines and the rest are those of a
      stream without empty lines. */
  lemma {:induction false} CallsSplit(text: seq<Byte>, input: seq<Receive>)
    requires Healthy(input) && Clean(text + Received(input))
    ensures Calls(text, input) == SplitLines(text + Received(input))
    decreases |text + Received(input)|
  {
    hide RecvLine, Clean, Healthy, Received, SplitLines;
    CallShrinks(text, input);
    CallKeepsStream(text, input);
    var (line, rest, used) := RecvLine(text, true, input);
    if line == None {
      NoLine(rest);
    } else {
      var tail := rest + Received(input[used..]);
      HealthyRest(input, used);
      CleanRest(line.value, tail);
      CallsSplit(rest, input[used..]);
      SplitFirst(line.value, tail);
    }
  }

  lemma Associate(line: seq<Byte>, rest: seq<Byte>, more: seq<Byte>)
    ensures line + [NL] + (rest + more) == line + [NL] + rest + more
  {
  }

  lemma NoLine(s: seq<Byte>)
    ensures NL !in s ==> SplitLines(s) == ([], s)
  {
  }

  lemma {:induction false} CallsGiveNoEmptyLine(text: seq<Byte>, input: seq<Receive>)
    ensures [] !in Calls(text, input).0
    decreases |text + Received(input)|
  {
    hide RecvLine, Received;
    CallShrinks(text, input);
    var (line, rest, used) := RecvLine(text, true, input);
    if line.Some? {
      CallsGiveNoEmptyLine(rest, input[used..]);
    }
  }

  /** A stream with two newlines in a row, or one in front, has an empty line. */
  lemma {:induction false} UncleanHasEmptyLine(s: seq<Byte>)
    requires !Clean(s)
    ensures [] in SplitLines(s).0
    decreases |s|
  {
    hide SplitLines, Until;
    SplitStep(s);
    var j := Until(s, 0);
    var rest := s[j + 1..];
    var lines := SplitLines(rest).0;
    assert s[..j] == ([s[..j]] + lines)[0];
    if j == 0 {
      assert s[..0] == [];
    } else {
      UncleanRest(s, j);
      UncleanHasEmptyLine(rest);
      var k :| 0 <= k < |lines| && lines[k] == [];
      assert ([s[..j]] + lines)[k + 1] == [];
    }
  }

  lemma UncleanRest(s: seq<Byte>, j: nat)
    requires !Clean(s) && 0 < j < |s| && s[j] == NL && NL !in s[..j]
    ensures !Clean(s[j + 1..])
  {
    var rest := s[j + 1..];
    assert forall k :: 0 <= k < j ==> s[..j][k] == s[k] != NL;
    var k :| 0 < k < |s| && s[k - 1] == NL && s[k] == NL;
    if k == j + 1 {
      assert rest[0] == s[k];
    } else {
      assert rest[k - j - 2] == s[k - 1] && rest[k - j - 1] == s[k];
    }
  }

  /** A session gives the lines of what it received exactly if none of them is empty. */
  lemma SessionIff(input: seq<Receive>)
    requires Healthy(input)
    ensures Calls([], input) == SplitLines(Received(input)) <==> Clean(Received(input))
  {
    hide Clean, Calls, SplitLines;
    assert [] + Received(input) == Received(input);
    if Clean(Received(input)) {
      CallsSplit([], input);
    } else {
      UncleanHasEmptyLine(Received(input));
      CallsGiveNoEmptyLine([], input);
    }
  }

  /** A newline that arrives alone at first ends the session, whatever follows. */
  lemma NewlineFirst(input: seq<Receive>)
    ensures Calls([], [Data([NL], false)] + input) == ([], [NL])
  {
    hide Received, TakeLine;
    var all := [Data([NL], false)] + input;
    assert CString([NL]) == [NL] by {
      CutWhole([NL]);
    }
    assert Receiving([], all) == (true, [NL], 1) by {
      assert [] + [NL] == [NL];
    }
    NoLineIff([NL]);
  }

  /** Calls until there is no line, on any input. */
  method Session(input: seq<Receive>) returns (lines: seq<seq<Byte>>, rest: seq<Byte>)
    ensures (lines, rest) == Calls([], input)
  {
    hide RecvLine, Received;
    var ctx := new Context();
    var used := 0;
    var open := true;
    lines := [];
    assert input[0..] == input;
    ghost var all := Calls([], input);
    assert [] + all.0 == all.0;
    while open
      invariant fresh(ctx) && fresh(ctx.sockbuf) && ctx.Valid() && used <= |input|
      invariant open ==> all.0 == lines + Calls(ctx.text, input[used..]).0 && all.1 == Calls(ctx.text, input[used..]).1
      invariant !open ==> all == (lines, ctx.text)
      decreases open, |ctx.text + Received(input[used..])|
    {
      ghost var left := input[used..];
      CallShrinks(ctx.text, left);
      var line, n := ctx.Receive(true, input[used..]);
      if line == None {
        assert lines + [] == lines;
        open := false;
      } else {
        assert left[n..] == input[used + n..];
        ghost var more := Calls(ctx.text, left[n..]).0;
        assert lines + ([line.value] + more) == lines + [line.value] + more;
        lines := lines + [line.value];
        used := used + n;
      }
    }
    rest := ctx.Text();
  }

  /** Healthy sockets whose streams arrive in different pieces deliver the same lines. */
  method AnyPieces(a: seq<Receive>, b: seq<Receive>) returns (linesA: seq<seq<Byte>>, linesB: seq<seq<Byte>>)
    requires Healthy(a) && Healthy(b) && Received(a) == Received(b) && Clean(Received(a))
    ensures linesA == linesB && exists rest :: NL !in rest && Joined(linesA) + rest == Received(a)
  {
    hide Clean, Calls, SplitLines;
    var restA, restB;
    linesA, restA := Session(a);
    linesB, restB := Session(b);
    SessionIff(a);
    SessionIff(b);
    SplitJoined(Received(a));
  }
}
