/**
 * The growable output buffer of glib_compat.c: a GString whose `str`
 * array holds `allocated_len + 1` characters, of which the first `len` are
 * the text.  Every operation that needs more room replaces the array by a
 * fresh one of `needed + 512 + 1` characters; a failed allocation is a
 * boolean parameter.
 */
module GlibCompat {

  const MAX_LEN: nat := 8192
  const NUL: char := '\0'
  /** The slack every reallocation adds */
  const SLACK: nat := 512

  /**
   * A C string safe_strlen may read: a NUL within the array, or more than
   * MAX_LEN characters (memcpy then copies MAX_LEN + 1 of them).
   */
  predicate Readable(s: seq<char>)
  {
    |s| > MAX_LEN || NUL in s
  }

  function ScanNul(s: seq<char>, i: nat): (n: nat)
    requires Readable(s) && i <= MAX_LEN && i <= |s|
    requires forall k :: 0 <= k < i ==> s[k] != NUL
    ensures i <= n <= MAX_LEN && n < |s|
    ensures n < MAX_LEN ==> s[n] == NUL
    ensures forall k :: 0 <= k < n ==> s[k] != NUL
    decreases MAX_LEN - i
  {
    if i == MAX_LEN then MAX_LEN
    else if s[i] == NUL then i
    else ScanNul(s, i + 1)
  }

  /**
   * safe_strlen: the index of the first NUL among the first MAX_LEN
   * characters, or MAX_LEN when there is none.
   */
  function SafeStrlen(s: seq<char>): (n: nat)
    requires Readable(s)
    ensures n <= MAX_LEN && n < |s|
    ensures n < MAX_LEN ==> s[n] == NUL
    ensures forall k :: 0 <= k < n ==> s[k] != NUL
  {
    ScanNul(s, 0)
  }

  /** The allocation an append of `required` characters leaves behind */
  function GrownLen(len: nat, required: nat, alloc: nat): (r: nat)
    ensures r >= alloc && r > len + required
    ensures len + required < alloc ==> r == alloc
  {
    if len + required >= alloc then len + required + SLACK else alloc
  }

  /** A string with an early NUL measures up to that NUL */
  lemma SafeStrlenOfTerminated(text: seq<char>)
    requires NUL !in text && |text| < MAX_LEN
    ensures SafeStrlen(text + [NUL]) == |text|
  {
    var s := text + [NUL];
    var n := SafeStrlen(s);
    assert s[|text|] == NUL;
    assert forall k :: 0 <= k < |text| ==> s[k] != NUL by {
      assert forall k :: 0 <= k < |text| ==> s[k] == text[k];
    }
  }

  class GString {
    var str: array<char>
    var len: nat
    var allocated_len: nat

    ghost predicate Valid()
      reads this
    {
      str.Length == allocated_len + 1 && len < allocated_len
    }

    /** The text: the first `len` characters */
    function Contents(): seq<char>
      reads this, str
      requires Valid()
    {
      str[..len]
    }

    /** g_string_sized_new when both allocations succeed; the characters are uninitialised */
    constructor SizedNew(dfl_size: nat)
      ensures Valid()
      ensures len == 0 && allocated_len == dfl_size + 1
      ensures fresh(str)
    {
      len := 0;
      allocated_len := dfl_size + 1;
      str := new char[dfl_size + 2];
    }

    /**
     * Replaces `str` by a fresh array of `newLen + 1` characters holding the
     * first `len + 1` characters of the old one (malloc, memcpy, free).
     */
    method Regrow(newLen: nat)
      requires Valid() && newLen > len
      modifies this
      ensures fresh(str) && str.Length == newLen + 1
      ensures allocated_len == newLen && len == old(len)
      ensures forall i :: 0 <= i <= len ==> str[i] == old(str[i])
    {
      var tmp := new char[newLen + 1];
      forall i | 0 <= i <= len {
        tmp[i] := str[i];
      }
      str := tmp;
      allocated_len := newLen;
    }

    /** memcpy(str + at, val, n): the n characters of val land at `at` */
    method CopyIn(at: nat, val: seq<char>, n: nat)
      requires at + n <= str.Length && n <= |val|
      modifies str
      ensures forall i :: 0 <= i < at ==> str[i] == old(str[i])
      ensures forall i :: at + n <= i < str.Length ==> str[i] == old(str[i])
      ensures forall i :: 0 <= i < n ==> str[at + i] == val[i]
    {
      forall i | at <= i < at + n {
        str[i] := val[i - at];
      }
    }

    /**
     * memcpy(str + at, val, required + 1) followed by `len = at + required`:
     * the text keeps its first `at` characters and continues with val.
     */
    method PutAt(at: nat, val: seq<char>, required: nat)
      requires str.Length == allocated_len + 1 && at <= len && at + required < allocated_len
      requires required < |val|
      modifies this, str
      ensures str == old(str) && allocated_len == old(allocated_len)
      ensures len == at + required
      ensures str[..len] == old(str[..at]) + val[..required]
      ensures str[len] == val[required]
    {
      ghost var kept := str[..at];
      CopyIn(at, val, required + 1);
      len := at + required;
      assert str[..len] == kept + val[..required];
    }

    /** g_string_append */
    method Append(val: seq<char>, mallocOk: bool)
      requires Valid() && Readable(val)
      modifies this, str
      ensures Valid()
      ensures allocated_len >= old(allocated_len)
      ensures var required := SafeStrlen(val);
        if old(len) + required >= old(allocated_len) && !mallocOk then
          str == old(str) && str[..] == old(str[..]) && len == old(len) && allocated_len == old(allocated_len)
        else
          && allocated_len == GrownLen(old(len), required, old(allocated_len))
          && Contents() == old(Contents()) + val[..required]
          && len == old(len) + required
          && str[len] == val[required]
    {
      var required := SafeStrlen(val);
      if len + required >= allocated_len {
        if mallocOk {
          ghost var before := str[..len];
          Regrow(len + required + SLACK);
          assert str[..len] == before;
          PutAt(len, val, required);
        }
      } else {
        PutAt(len, val, required);
      }
    }

    /** g_string_assign */
    method Assign(val: seq<char>, mallocOk: bool)
      requires Valid() && Readable(val)
      modifies this, str
      ensures Valid()
      ensures allocated_len >= old(allocated_len)
      ensures var required := SafeStrlen(val);
        if required >= old(allocated_len) && !mallocOk then
          str == old(str) && str[..] == old(str[..]) && len == old(len) && allocated_len == old(allocated_len)
        else
          && allocated_len == (if required >= old(allocated_len) then required + SLACK else old(allocated_len))
          && Contents() == val[..required]
          && str[len] == val[required]
    {
      var required := SafeStrlen(val);
      if required >= allocated_len {
        if mallocOk {
          Regrow(required + SLACK);
          PutAt(0, val, required);
        }
      } else {
        PutAt(0, val, required);
      }
    }

    /**
     * vsnprintf(str + len, allocated_len - len, ...): as much of the
     * rendered text as fits, then a NUL.
     */
    method RenderAt(text: seq<char>)
      requires Valid()
      modifies str
      ensures var k := if |text| < allocated_len - len then |text| else allocated_len - len - 1;
        && (forall i :: 0 <= i < len ==> str[i] == old(str[i]))
        && (forall i :: 0 <= i < k ==> str[len + i] == text[i])
        && str[len + k] == NUL
    {
      var k := if |text| < allocated_len - len then |text| else allocated_len - len - 1;
      CopyIn(len, text, k);
      str[len + k] := NUL;
    }

    /**
     * g_string_append_printf, with the formatted text given already
     * rendered: the text is rendered once into the current array, and
     * again into a grown array when it did not fit.
     */
    method AppendPrintf(text: seq<char>, mallocOk: bool)
      requires Valid()
      modifies this, str
      ensures Valid()
      ensures allocated_len >= old(allocated_len)
      ensures if old(len) + |text| >= old(allocated_len) && !mallocOk then
          str == old(str) && len == old(len) && allocated_len == old(allocated_len)
          && Contents() == old(Contents())
        else
          && allocated_len == GrownLen(old(len), |text|, old(allocated_len))
          && Contents() == old(Contents()) + text
          && str[len] == NUL
    {
      ghost var before := str[..len];
      RenderAt(text);
      if len + |text| >= allocated_len {
        if mallocOk {
          Regrow(len + |text| + SLACK);
          RenderAt(text);
          len := len + |text|;
          assert str[..len] == before + text;
        }
      } else {
        len := len + |text|;
        assert str[..len] == before + text;
      }
    }
  }

  /**
   * g_string_sized_new: NULL when either allocation fails, otherwise an
   * empty buffer with room for `dfl_size + 1` characters.
   */
  method NewGString(dfl_size: nat, mallocOk: bool) returns (g: GString?)
    ensures mallocOk <==> g != null
    ensures g != null ==> fresh(g) && fresh(g.str) && g.Valid() && g.len == 0 && g.allocated_len == dfl_size + 1
  {
    if mallocOk {
      g := new GString.SizedNew(dfl_size);
    } else {
      g := null;
    }
  }
}
