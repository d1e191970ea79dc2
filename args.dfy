/** Splitting the command line into arguments: the `strtok_s` walk over a
    string with delimiter " " that `argument_count` and `argv_put_stack`
    (process.c) run over their copy of the command line. `strtok_s` is read
    as Pintos's `strtok_r`, which takes the same three arguments. */
module Args {
  import opened Bytes
  import opened Wrappers

  /** The only delimiter the command line is split on. */
  const SPACE: byte := 0x20

  /** An argument: a non-empty run of bytes without a space. */
  predicate IsToken(t: seq<byte>) {
    |t| > 0 && forall i :: 0 <= i < |t| ==> t[i] != SPACE
  }

  /** The length of the run of non-space bytes at the start of s. */
  function TokenLength(s: seq<byte>): (n: nat)
    ensures n <= |s|
    ensures forall i :: 0 <= i < n ==> s[i] != SPACE
    ensures n < |s| ==> s[n] == SPACE
  {
    if s == [] || s[0] == SPACE then 0 else 1 + TokenLength(s[1..])
  }

  /** The arguments of a command line: its maximal runs of non-space bytes, in order. */
  function Tokens(s: seq<byte>): (ts: seq<seq<byte>>)
    ensures forall t :: t in ts ==> IsToken(t)
    decreases |s|
  {
    if s == [] then []
    else if s[0] == SPACE then Tokens(s[1..])
    else
      var n := TokenLength(s);
      [s[..n]] + Tokens(s[n..])
  }

  /** One call of `strtok_s (str, " ", &address)` with the saved position
      at pos: it skips spaces; at the end of the string it returns NULL and
      stays at the end; otherwise it returns the run of non-space bytes and
      saves the position after the space that ends it (which it overwrites
      with a NUL). The token it returns is the first argument of what is
      left, and the position it saves leaves exactly the other arguments. */
  function NextToken(s: seq<byte>, pos: nat): (r: (Option<seq<byte>>, nat))
    requires pos <= |s|
    ensures pos <= r.1 <= |s|
    ensures r.0.None? ==> r.1 == |s| && Tokens(s[pos..]) == []
    ensures r.0.Some? ==> pos < r.1 && Tokens(s[pos..]) == [r.0.value] + Tokens(s[r.1..])
    decreases |s| - pos
  {
    if pos == |s| then (None, pos)
    else if s[pos] == SPACE then
      assert s[pos..][1..] == s[pos + 1..];
      NextToken(s, pos + 1)
    else
      var n := TokenLength(s[pos..]);
      assert s[pos..][..n] == s[pos..pos + n] && s[pos..][n..] == s[pos + n..];
      if pos + n < |s| then
        assert s[pos + n..][1..] == s[pos + n + 1..];
        (Some(s[pos..pos + n]), pos + n + 1)
      else
        (Some(s[pos..pos + n]), pos + n)
  }

  /** What `strlcpy (dst, src, size)` leaves in dst: at most size - 1 bytes
      of src. With size 0 nothing is copied and dst is left as it was; the
      model reads that as the empty string. */
  function Strlcpy(src: seq<byte>, size: nat): (r: seq<byte>)
    ensures size > 0 ==> |r| == if |src| < size then |src| else size - 1
    ensures size > 0 ==> r == src[..|r|]
  {
    if size == 0 then [] else if |src| < size then src else src[..size - 1]
  }

  /** The loop of `argument_count`: one `strtok_s` call per argument until
      it returns NULL, counting the tokens. */
  method CountTokens(argv: seq<byte>) returns (count: nat)
    ensures count == |Tokens(argv)|
  {
    assert argv[0..] == argv;
    var r := NextToken(argv, 0);
    var token, address := r.0, r.1;
    count := 0;
    while token.Some?
      invariant address <= |argv|
      invariant |Tokens(argv)| == count + if token.Some? then 1 + |Tokens(argv[address..])| else 0
      decreases |argv| - address + if token.Some? then 1 else 0
    {
      count := count + 1;
      r := NextToken(argv, address);
      token, address := r.0, r.1;
    }
  }

  /** `argument_count` as written: it copies the line with
      `strlcpy (argv, parse, strlen (parse))`, which keeps only the first
      strlen - 1 bytes, and counts the arguments of that copy. */
  method ArgumentCount(parse: seq<byte>) returns (count: nat)
    ensures count == |Tokens(Strlcpy(parse, |parse|))|
    ensures count == |Tokens(parse)| - if EndsWithOneByteToken(parse) then 1 else 0
  {
    var argv := Strlcpy(parse, |parse|);
    DroppedLastByte(parse);
    count := CountTokens(argv);
  }

  /** `argument_count` with the copy size `strlen (parse) + 1` that keeps
      the whole line: it counts exactly the arguments. */
  method ArgumentCountCorrected(parse: seq<byte>) returns (count: nat)
    ensures count == |Tokens(parse)|
  {
    var argv := Strlcpy(parse, |parse| + 1);
    count := CountTokens(argv);
  }

  // ---------------------------------------------------------------------
  // Properties of the split

  /** The run at the start of s ends at n exactly when the bytes before n are
      not spaces and n is the end of s or a space. */
  lemma TokenLengthUnique(s: seq<byte>, n: nat)
    requires n <= |s|
    requires forall i :: 0 <= i < n ==> s[i] != SPACE
    requires n < |s| ==> s[n] == SPACE
    ensures TokenLength(s) == n
  {
  }

  /** A single argument splits into itself. */
  lemma {:induction false} TokensOfToken(t: seq<byte>)
    requires IsToken(t)
    ensures Tokens(t) == [t]
  {
    TokenLengthUnique(t, |t|);
    assert t[..|t|] == t && t[|t|..] == [];
  }

  /** Splitting is compositional at a space: the arguments of a + " " + b
      are those of a followed by those of b. */
  lemma {:induction false} TokensSplit(a: seq<byte>, b: seq<byte>)
    ensures Tokens(a + [SPACE] + b) == Tokens(a) + Tokens(b)
    decreases |a|
  {
    var s := a + [SPACE] + b;
    if a == [] {
      assert s[1..] == b;
    } else if a[0] == SPACE {
      assert s[1..] == a[1..] + [SPACE] + b;
      TokensSplit(a[1..], b);
    } else {
      var m := TokenLength(a);
      if m == |a| {
        TokenLengthUnique(s, |a|);
        assert s[..|a|] == a && s[|a|..] == [SPACE] + b && ([SPACE] + b)[1..] == b;
        assert a[..m] == a && a[m..] == [];
      } else {
        TokenLengthUnique(s, m);
        assert s[..m] == a[..m] && s[m..] == a[m..] + [SPACE] + b;
        TokensSplit(a[m..], b);
      }
    }
  }

  /** Appending a non-space byte to a line that ends inside an argument
      lengthens that argument and adds none. */
  lemma {:induction false} TokensExtend(a: seq<byte>, c: byte)
    requires |a| > 0 && a[|a| - 1] != SPACE && c != SPACE
    ensures |Tokens(a + [c])| == |Tokens(a)|
    decreases |a|
  {
    var s := a + [c];
    if a[0] == SPACE {
      assert s[1..] == a[1..] + [c];
      TokensExtend(a[1..], c);
    } else {
      var m := TokenLength(a);
      if m == |a| {
        TokenLengthUnique(s, |s|);
        assert s[..|s|] == s && s[|s|..] == [];
        assert a[..m] == a && a[m..] == [];
      } else {
        TokenLengthUnique(s, m);
        assert s[..m] == a[..m] && s[m..] == a[m..] + [c];
        TokensExtend(a[m..], c);
      }
    }
  }

  /** The line's last argument is a single byte. */
  predicate EndsWithOneByteToken(s: seq<byte>) {
    |s| > 0 && s[|s| - 1] != SPACE && (|s| == 1 || s[|s| - 2] == SPACE)
  }

  /** Dropping the last byte of the line loses one argument exactly when
      the last argument is a single byte, and none otherwise. */
  lemma DroppedLastByte(s: seq<byte>)
    ensures |Tokens(Strlcpy(s, |s|))| == |Tokens(s)| - if EndsWithOneByteToken(s) then 1 else 0
  {
    if s != [] {
      var a, c := s[..|s| - 1], s[|s| - 1];
      assert s == a + [c];
      assert Strlcpy(s, |s|) == a;
      if c == SPACE {
        TokensSplit(a, []);
        assert a + [SPACE] + [] == s;
      } else if a == [] {
        TokensOfToken(s);
      } else if a[|a| - 1] == SPACE {
        var a' := a[..|a| - 1];
        assert a == a' + [SPACE] + [];
        TokensSplit(a', []);
        assert s == a' + [SPACE] + [c];
        TokensSplit(a', [c]);
        TokensOfToken([c]);
      } else {
        TokensExtend(a, c);
      }
    }
  }

  /** The command line "echo x" has two arguments, but `argument_count`
      finds one. */
  lemma ArgumentCountExample()
    ensures var line: seq<byte> := [0x65, 0x63, 0x68, 0x6f, SPACE, 0x78];
      |Tokens(line)| == 2 && |Tokens(Strlcpy(line, |line|))| == 1
  {
    var line: seq<byte> := [0x65, 0x63, 0x68, 0x6f, SPACE, 0x78];
    var echo: seq<byte> := [0x65, 0x63, 0x68, 0x6f];
    assert line == echo + [SPACE] + [0x78];
    TokensSplit(echo, [0x78]);
    TokensOfToken(echo);
    TokensOfToken([0x78]);
    assert Strlcpy(line, |line|) == echo + [SPACE] + [];
    TokensSplit(echo, []);
  }

  /** Arguments joined with single spaces. */
  function Join(ts: seq<seq<byte>>): seq<byte> {
    if ts == [] then []
    else if |ts| == 1 then ts[0]
    else ts[0] + [SPACE] + Join(ts[1..])
  }

  /** Splitting arguments joined with spaces gives back the arguments. */
  lemma {:induction false} TokensJoin(ts: seq<seq<byte>>)
    requires forall t :: t in ts ==> IsToken(t)
    ensures Tokens(Join(ts)) == ts
  {
    if |ts| == 1 {
      TokensOfToken(ts[0]);
    } else if |ts| > 1 {
      assert ts[0] in ts;
      TokensOfToken(ts[0]);
      TokensSplit(ts[0], Join(ts[1..]));
      TokensJoin(ts[1..]);
    }
  }
}
