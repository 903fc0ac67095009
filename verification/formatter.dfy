/** The text posted for one job, `format_message` (bot.py, lines 48-60): a
    header, the group name, the date, the original message between separator
    lines. The date rendering (`strftime("%d/%m/%Y %H:%M")`) is a parameter. */
module Formatter {
  import opened Util

  /** Forty copies of U+2501 BOX DRAWINGS HEAVY HORIZONTAL. */
  function Separator(): string
  {
    seq(40, _ => '\U{2501}')
  }

  /** Everything before the message text. */
  function Head(group: string, date: string): string
  {
    "\U{1F4CC} **Vaga encontrada!**\n"
      + Separator() + "\n"
      + "\U{1F4C2} **Grupo:** " + group + "\n"
      + "\U{1F4C5} **Data:** " + date + "\n"
      + Separator() + "\n\n"
  }

  /** Everything after the message text. */
  function Tail(): string
  {
    "\n\n" + Separator()
  }

  /** `format_message(msg, group_name)` with `date` already rendered. */
  function FormatMessage(text: string, group: string, date: string): (r: string)
    ensures |r| == |Head(group, date)| + |text| + |Tail()|
    ensures r[..|Head(group, date)|] == Head(group, date)
    ensures r[|Head(group, date)|..|Head(group, date)| + |text|] == text
    ensures r[|r| - 40..] == Separator()
  {
    var h := Head(group, date);
    var r := h + text + Tail();
    assert r[..|h|] == h;
    assert r[|h|..|h| + |text|] == text;
    assert r[|r| - 40..] == Separator();
    r
  }

  /** The inverse of `FormatMessage` for a known group and date: the message
      text between the fixed head and tail, if the post has that shape. */
  function ExtractText(post: string, group: string, date: string): (r: Option<string>)
    ensures r.Some? ==> FormatMessage(r.value, group, date) == post
  {
    var h := Head(group, date);
    if |post| >= |h| + |Tail()| && post[..|h|] == h && post[|post| - |Tail()|..] == Tail()
    then
      var t := post[|h|..|post| - |Tail()|];
      assert post == h + t + Tail();
      Some(t)
    else None
  }

  /** The message text can always be read back out of a post: the text is
      embedded verbatim. */
  lemma ExtractFormat(text: string, group: string, date: string)
    ensures ExtractText(FormatMessage(text, group, date), group, date) == Some(text)
  {
    var h := Head(group, date);
    var post := FormatMessage(text, group, date);
    assert post == h + text + Tail();
    assert post[|post| - |Tail()|..] == Tail();
    assert post[|h|..|post| - |Tail()|] == text;
  }

  /** Different messages from the same group and date give different posts. */
  lemma FormatInjective(t1: string, t2: string, group: string, date: string)
    requires FormatMessage(t1, group, date) == FormatMessage(t2, group, date)
    ensures t1 == t2
  {
    ExtractFormat(t1, group, date);
    ExtractFormat(t2, group, date);
  }
}
