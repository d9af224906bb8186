/** The queue details panel shows a vehicle's `returnDateTime` (a
    `datetime-local` value such as "2024-07-25T15:00") with every '-'
    turned into '/' and the first 'T' into a space. */
module QueueContext {
  import opened JsText

  /** `returnDateTime.replaceAll('-', '/').replace('T', ' ')`. */
  function DisplayReturnTime(s: string): (r: string)
    ensures |r| == |s|
    ensures forall i :: 0 <= i < |s| ==>
      r[i] == (if s[i] == '-' then '/' else if i == IndexOf(s, 'T') then ' ' else s[i])
  {
    IndexOfReplaceAll(s, '-', '/', 'T');
    ReplaceFirst(ReplaceAll(s, '-', '/'), 'T', ' ')
  }

  /** The rewrite replaces every '-', replaces only the first 'T' (later
      ones are kept), and keeps every other character where it was. */
  lemma DisplayRewrites(s: string)
    ensures forall i :: 0 <= i < |s| && s[i] == '-' ==> DisplayReturnTime(s)[i] == '/'
    ensures 'T' in s ==> DisplayReturnTime(s)[IndexOf(s, 'T')] == ' '
    ensures forall i :: 0 <= i < |s| && s[i] == 'T' && i != IndexOf(s, 'T') ==> DisplayReturnTime(s)[i] == 'T'
    ensures forall i :: 0 <= i < |s| && s[i] != '-' && s[i] != 'T' ==> DisplayReturnTime(s)[i] == s[i]
    ensures 'T' !in s ==> DisplayReturnTime(s) == ReplaceAll(s, '-', '/')
  {
    var r := DisplayReturnTime(s);
    if 'T' in s {
      var j := IndexOf(s, 'T');
      assert s[j] == 'T';
    } else {
      assert IndexOf(s, 'T') == -1;
      assert r == ReplaceAll(s, '-', '/');
    }
  }

  /** The datetime-local value used throughout the app displays as expected. */
  lemma DisplayExample(s: string)
    requires s == "2024-07-25T15:00"
    ensures DisplayReturnTime(s) == "2024/07/25 15:00"
  {
    var t := ReplaceAll(s, '-', '/');
    assert forall i :: 0 <= i < 16 ==> t[i] == "2024/07/25T15:00"[i];
    assert t[..10] == "2024/07/25";
    IndexOfAt(t, 'T', 10);
    var r := t[10 := ' '];
    assert forall i :: 0 <= i < 16 ==> r[i] == "2024/07/25 15:00"[i];
  }

  /** Reading the display back: on a value with no '/' and no space, the
      reverse rewrite (first space back to 'T', every '/' back to '-')
      recovers it, so the display loses nothing. */
  lemma DisplayRoundTrip(s: string)
    requires '/' !in s && ' ' !in s
    ensures ReplaceFirst(ReplaceAll(DisplayReturnTime(s), '/', '-'), ' ', 'T') == s
  {
    var r := DisplayReturnTime(s);
    var u := ReplaceAll(r, '/', '-');
    var j := IndexOf(s, 'T');
    forall i | 0 <= i < |s|
      ensures u[i] == (if i == j then ' ' else s[i])
    {
      assert s[i] != '/' && s[i] != ' ';
    }
    if j >= 0 {
      assert u[j] == ' ';
      assert ' ' !in u[..j] by {
        forall i | 0 <= i < j ensures u[..j][i] != ' ' {
          assert u[i] == s[i];
        }
      }
      assert IndexOf(u, ' ') == j;
      assert u[j := 'T'] == s;
    } else {
      assert ' ' !in u by {
        forall i | 0 <= i < |u| ensures u[i] != ' ' {
          assert u[i] == s[i];
        }
      }
      assert u == s;
    }
  }
}
