/** The part of std::istringstream the codec uses: unformatted line input
    (std::getline) and block input (istream::read). A stream is the part of
    its string not read yet and whether it is still good, that is, neither
    end-of-file nor failure has been set; once it is not good, every further
    input operation fails without reading anything. */
module Streams {
  import opened Text

  datatype Stream = Stream(unread: string, good: bool) {
    /** Shrinks with every successful input operation. */
    function Measure(): nat {
      |unread| + (if good then 1 else 0)
    }
  }

  /** A fresh std::istringstream over `s`. */
  function Open(s: string): Stream {
    Stream(s, true)
  }

  /** The effect of `std::getline(stream, dest, delim)`: whether it
      succeeded, the value of `dest` afterwards and the stream afterwards. */
  datatype Got = Got(ok: bool, text: string, rest: Stream)

  /** std::getline: when the stream is not good, nothing happens and the
      call fails. Otherwise `dest` is emptied and characters are moved into
      it up to the delimiter, which is consumed and dropped; running into
      the end of the data sets end-of-file, and the call fails only if it
      extracted nothing at all. */
  function Getline(st: Stream, delim: char, dest: string): (g: Got)
    ensures !st.good ==> g == Got(false, dest, st)
    ensures st.good && st.unread == [] ==> g == Got(false, [], Stream([], false))
    ensures g.ok ==> g.rest.Measure() < st.Measure() && delim !in g.text
    ensures g.ok && g.rest.good ==> st.unread == g.text + [delim] + g.rest.unread
    ensures g.ok && !g.rest.good ==> st.unread == g.text && g.rest.unread == []
  {
    if !st.good then Got(false, dest, st)
    else if st.unread == [] then Got(false, [], Stream([], false))
    else
      var s := st.unread;
      match Find(s, delim)
      case Some(i) =>
        assert s == s[..i] + [delim] + s[i + 1..];
        Got(true, s[..i], Stream(s[i + 1..], true))
      case None =>
        Got(true, s, Stream([], false))
  }

  /** A line that ends in the delimiter is extracted without it, and the
      stream stays good, positioned just after the delimiter. */
  lemma GetlineLine(st: Stream, delim: char, dest: string, line: string, post: string)
    requires st.good && st.unread == line + [delim] + post
    requires delim !in line
    ensures Getline(st, delim, dest) == Got(true, line, Stream(post, true))
  {
    FindFirst(line, delim, post);
    assert st.unread[..|line|] == line && st.unread[|line| + 1..] == post;
  }

  /** Text without the delimiter that runs to the end of the data is
      extracted whole, and the stream reaches end-of-file. */
  lemma GetlineLast(st: Stream, delim: char, dest: string)
    requires st.good && st.unread != [] && delim !in st.unread
    ensures Getline(st, delim, dest) == Got(true, st.unread, Stream([], false))
  {
  }

  /** The effect of `stream.read(buffer, n)`: the characters copied into the
      buffer and the stream afterwards. */
  datatype Chunk = Chunk(text: string, rest: Stream)

  /** istream::read: when the stream is good, copies the next `n`
      characters, or all that remain (setting end-of-file and failure) when
      fewer are left; copies nothing when the stream is not good. */
  function ReadBlock(st: Stream, n: nat): (c: Chunk)
    ensures c.text + c.rest.unread == st.unread && |c.text| <= n
    ensures !st.good ==> c == Chunk([], st)
    ensures st.good ==> (c.rest.good <==> n <= |st.unread|)
    ensures st.good && n <= |st.unread| ==> |c.text| == n
    ensures st.good && n > |st.unread| ==> c.rest.unread == []
  {
    if !st.good then Chunk([], st)
    else if n <= |st.unread| then
      assert st.unread == st.unread[..n] + st.unread[n..];
      Chunk(st.unread[..n], Stream(st.unread[n..], true))
    else Chunk(st.unread, Stream([], false))
  }
}
