/**
 * The antilink test: the regular expression `/https?:\/\/(?!chat\.whatsapp\.com)[^\s]+/`
 * searched anywhere in a message.  A match needs `http://` or `https://`, then at least one
 * non-whitespace character, and the text right after `://` must not begin with
 * `chat.whatsapp.com`.  The exemption is a prefix test, not a comparison of host names, and
 * the scheme is matched case-sensitively.
 */
module LinkGuard {
  import opened Text

  const InviteHost := "chat.whatsapp.com"

  /** The regex matches at `i` with the given scheme (`http://` or `https://`). */
  predicate LinkWith(s: string, i: nat, scheme: string): (r: bool)
    ensures r ==> i + |scheme| < |s| && !(scheme + InviteHost <= s[i..])
  {
    && i + |scheme| < |s|
    && scheme <= s[i..]
    && !IsWhitespace(s[i + |scheme|])
    && !(InviteHost <= s[i + |scheme|..])
  }

  /** The regex matches starting at position `i` of `s`. */
  predicate LinkAt(s: string, i: nat): (r: bool)
    ensures r ==> i + 7 < |s| && s[i..i + 4] == "http" && !IsWhitespace(s[i + 7])
  {
    LinkWith(s, i, "http://") || LinkWith(s, i, "https://")
  }

  /** `linkRegex.test(s)`, scanning the start positions from `i` on. */
  function LinkFrom(s: string, i: nat): (r: bool)
    requires i <= |s|
    ensures r <==> exists k :: i <= k < |s| && LinkAt(s, k)
    decreases |s| - i
  {
    if i == |s| then false
    else if LinkAt(s, i) then true
    else LinkFrom(s, i + 1)
  }

  /** `linkRegex.test(s)` */
  function HasForbiddenLink(s: string): (r: bool)
    ensures r <==> exists k :: 0 <= k < |s| && LinkAt(s, k)
  {
    LinkFrom(s, 0)
  }

  /** The two schemes the pattern `https?:\/\/` accepts. */
  predicate IsScheme(scheme: string) {
    scheme == "http://" || scheme == "https://"
  }

  /**
   * Group invites are exempt: a link whose text after `://` begins with the invite host is
   * not matched at its position, whatever follows the host (`chat.whatsapp.com.example` too).
   */
  lemma InviteIsExemptAt(s: string, k: nat, scheme: string)
    requires IsScheme(scheme) && k <= |s|
    requires scheme + InviteHost <= s[k..]
    ensures !LinkAt(s, k)
  {
    var t := s[k..];
    assert t[..|scheme|] == scheme && t[|scheme|..|scheme| + |InviteHost|] == InviteHost;
    if scheme == "http://" {
      assert t[4] == ':';
      assert !LinkWith(s, k, "https://") by { assert "https://"[4] == 's'; }
      assert s[k + 7..] == t[7..];
    } else {
      assert t[4] == 's';
      assert !LinkWith(s, k, "http://") by { assert "http://"[4] == ':'; }
      assert s[k + 8..] == t[8..];
    }
  }

  /** Any other link, with at least one character after `://`, is matched where it starts. */
  lemma OtherLinkIsForbiddenAt(s: string, k: nat, scheme: string)
    requires IsScheme(scheme) && k + |scheme| < |s|
    requires scheme <= s[k..]
    requires !IsWhitespace(s[k + |scheme|]) && !(InviteHost <= s[k + |scheme|..])
    ensures LinkAt(s, k) && HasForbiddenLink(s)
  {
  }

  /** Text in front of a forbidden link never hides it. */
  lemma {:induction false} ForbiddenAfterPrefix(a: string, b: string)
    requires HasForbiddenLink(b)
    ensures HasForbiddenLink(a + b)
  {
    var k :| 0 <= k < |b| && LinkAt(b, k);
    var s := a + b;
    assert s[|a| + k..] == b[k..];
    assert LinkAt(s, |a| + k) by {
      if LinkWith(b, k, "http://") {
        assert s[|a| + k + 7..] == b[k + 7..];
      } else {
        assert s[|a| + k + 8..] == b[k + 8..];
      }
    }
  }

  /**
   * A forbidden link stays forbidden when more words follow it: an invite link elsewhere in
   * the same message does not save it.  (Text glued to the end without a space can change
   * the verdict, because the look-ahead then sees a longer host.)
   */
  lemma {:induction false} ForbiddenBeforeWhitespace(a: string, b: string)
    requires HasForbiddenLink(a)
    requires b == [] || IsWhitespace(b[0])
    ensures HasForbiddenLink(a + b)
  {
    var k :| 0 <= k < |a| && LinkAt(a, k);
    if LinkWith(a, k, "http://") {
      LinkWithBeforeWhitespace(a, b, k, "http://");
    } else {
      LinkWithBeforeWhitespace(a, b, k, "https://");
    }
    assert LinkAt(a + b, k);
  }

  lemma LinkWithBeforeWhitespace(a: string, b: string, k: nat, scheme: string)
    requires LinkWith(a, k, scheme)
    requires b == [] || IsWhitespace(b[0])
    ensures LinkWith(a + b, k, scheme)
  {
    var s := a + b;
    var j := k + |scheme|;
    var n := |InviteHost|;
    assert s[k..][..|scheme|] == a[k..][..|scheme|];
    if b != [] {
      if j + n <= |a| {
        assert a[j..][..n] == s[j..][..n];
      } else {
        var m := |a| - j;
        InviteHostHasNoWhitespace(m);
        assert s[j..][m] == b[0];
        assert s[j..][m] != InviteHost[m];
      }
    }
  }

  lemma InviteHostHasNoWhitespace(i: nat)
    requires i < |InviteHost|
    ensures !IsWhitespace(InviteHost[i])
  {
  }
}
