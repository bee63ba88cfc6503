/**
 * The expansion buffer: the text left of the cursor is final, the text right
 * of it is still to be scanned. Extracting a key moves the cursor past the
 * literal text before the placeholder and cuts the placeholder out; adding a
 * value splices it in right after the cursor, so that it is scanned next.
 */
module ExpansionBuffers {
  import opened Wrappers
  import opened Placeholders

  class ExpansionBuffer {
    /** Text before the cursor: scanned, never looked at again. */
    var resolved: string
    /** Text after the cursor: still to be scanned. */
    var unresolved: string

    constructor (value: string)
      ensures resolved == "" && unresolved == value
    {
      resolved := "";
      unresolved := value;
    }

    /** How many characters follow the cursor. */
    function Remaining(): nat
      reads this
    {
      |unresolved|
    }

    /** The whole working text (`toString`): the final text, then the text still to scan. */
    function Content(): (r: string)
      reads this
      ensures resolved <= r && r[|resolved|..] == unresolved
    {
      resolved + unresolved
    }

    /** Whether a legal placeholder lies after the cursor. */
    method HasMoreLegalPlaceholders() returns (more: bool)
      ensures more <==> HasLegalPlaceholder(unresolved)
    {
      NextLegalFindsAny(unresolved);
      more := NextLegal(unresolved, 0).Some?;
    }

    /**
     * Moves the cursor past the text before the next legal placeholder,
     * cuts the placeholder out and returns its key.
     */
    method ExtractPropertyKey() returns (key: string)
      requires HasLegalPlaceholder(unresolved)
      modifies this
      ensures old(unresolved) == Extract(old(unresolved)).0 + Ref(key) + unresolved
      ensures key == Extract(old(unresolved)).1 && ValidKey(key)
      ensures unresolved == Extract(old(unresolved)).2
      ensures resolved == old(resolved) + Extract(old(unresolved)).0
    {
      var (pre, k, rest) := Extract(unresolved);
      resolved := resolved + pre;
      unresolved := rest;
      key := k;
    }

    /**
     * Puts the value of `key` where its placeholder was. A value is scanned
     * next, so placeholders inside it are expanded too; a key without a value
     * is written back literally as `${key}` and not scanned again.
     */
    method Add(key: string, value: Option<string>)
      modifies this
      ensures value.None? ==> resolved == old(resolved) + Ref(key) && unresolved == old(unresolved)
      ensures value.Some? ==> resolved == old(resolved) && unresolved == value.value + old(unresolved)
    {
      if value.None? {
        resolved := resolved + Ref(key);
      } else {
        unresolved := value.value + unresolved;
      }
    }
  }
}
