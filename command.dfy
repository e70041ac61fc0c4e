/** Recognising the search command in a chat message and turning the rest of
    the message into the list of tags handed to the image search. */
module Command {
  import opened Strings

  /** The prefix a message must start with to be handled. */
  const SearchCommand: string := "!derpi"

  /** How many leading characters are cut off before the tags: the command
      and the one character after it, whatever that character is. */
  const TagOffset: nat := 7

  /** The character the tag list is split on. */
  const TagSeparator: char := ','

  /** Python's `content.startswith(SearchCommand)`: the message is at least as
      long as the command and agrees with it character by character. */
  predicate IsSearchCommand(content: string)
    ensures IsSearchCommand(content) <==>
              |content| >= |SearchCommand| &&
              forall i :: 0 <= i < |SearchCommand| ==> content[i] == SearchCommand[i]
  {
    SearchCommand <= content
  }

  /** Python's `content[7:]`: the message without its first seven characters,
      and the empty string when the message is no longer than that. */
  function RawTags(content: string): (raw: string)
    ensures |content| <= TagOffset ==> raw == ""
    ensures |content| > TagOffset ==> content == content[..TagOffset] + raw
  {
    if |content| <= TagOffset then "" else content[TagOffset..]
  }

  /** The tags searched for: the raw tag string split on commas, untrimmed. */
  function Tags(content: string): (tags: seq<string>)
    ensures |tags| == Occurrences(RawTags(content), TagSeparator) + 1
    ensures Join(tags, TagSeparator) == RawTags(content)
    ensures forall i :: 0 <= i < |tags| ==> TagSeparator !in tags[i]
    ensures |content| <= TagOffset ==> tags == [""]
  {
    var raw := RawTags(content);
    SplitCount(raw, TagSeparator);
    JoinSplit(raw, TagSeparator);
    SplitPartsExcludeSeparator(raw, TagSeparator);
    Split(raw, TagSeparator)
  }

  /** A handled message is the command, one further character of any kind,
      and then the raw tag string. */
  lemma CommandLayout(content: string)
    requires IsSearchCommand(content) && |content| >= TagOffset
    ensures content == SearchCommand + [content[|SearchCommand|]] + RawTags(content)
  {
    assert content[..|SearchCommand|] == SearchCommand;
    assert content[..TagOffset] == content[..|SearchCommand|] + [content[|SearchCommand|]];
  }

  /** Whitespace after a comma stays part of the next tag. */
  lemma TagsNotTrimmed()
    ensures Tags("!derpi twilight sparkle, pancake") == ["twilight sparkle", " pancake"]
  {
    var parts := ["twilight sparkle", " pancake"];
    assert RawTags("!derpi twilight sparkle, pancake") == "twilight sparkle, pancake";
    assert Join(parts, TagSeparator) == "twilight sparkle, pancake";
    SplitJoin(parts, TagSeparator);
  }

  /** The character after the command need not be a space: `!derpix` is handled
      and searches with the single empty tag, and in `!derpi,safe` the comma is
      cut off with the command. */
  lemma SeparatorNotChecked()
    ensures IsSearchCommand("!derpix") && Tags("!derpix") == [""]
    ensures IsSearchCommand("!derpi,safe") && Tags("!derpi,safe") == ["safe"]
  {
    assert RawTags("!derpi,safe") == "safe";
    assert Join(["safe"], TagSeparator) == "safe";
    SplitJoin(["safe"], TagSeparator);
  }
}
