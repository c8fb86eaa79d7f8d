/** The roster entity and the recruitment vocabulary (src/types/recruit.ts
    and src/lib/utils.ts). */
module Roster {
  import opened Strings

  /** The six rarity tiers. */
  type Rarity = r: int | 1 <= r <= 6 witness 1

  /** An operator's `tags` field as it arrives from JSON: a list of
      strings, the legacy bracketed string such as "['近距離', '支援']",
      or anything else (missing, null, a number, ...). */
  datatype TagField = TagList(items: seq<string>) | TagString(text: string) | TagOther

  /** One roster entry. `profession` is the source's `type` field (職業). */
  datatype Operator = Operator(
    id: int,
    name: string,
    rarity: Rarity,
    profession: string,
    tags: TagField,
    addDay: string,
    wiki: string,
    imgPath: string)

  /** The three rarity aliases: selectable items that are not stored on
      operators the way other tags are. */
  const Elite: string := "エリート"
  const SeniorElite: string := "上級エリート"
  const Robot: string := "ロボット"

  const Positions: seq<string> := ["近距離", "遠距離"]

  const Professions: seq<string> := ["先鋒", "前衛", "狙撃", "術師", "重装", "医療", "補助", "特殊"]

  /** The selectable tags, aliases included, in their display order. */
  const Tags: seq<string> := [
    "初期", "火力", "生存", "防御", "治療", "支援", "範囲攻撃", "減速", "牽制", "弱化",
    "COST回復", "強制移動", "爆発力", "召喚", "高速再配置", "元素",
    Robot, Elite, SeniorElite
  ]

  /** Every item of the selectable vocabulary. */
  function Vocabulary(): seq<string> {
    Positions + Professions + Tags
  }

  /** No vocabulary item contains '+', so a combination key
      `items.join(" + ")` splits back into its items. */
  lemma VocabularyHasNoPlus()
    ensures forall k | 0 <= k < |Vocabulary()| :: '+' !in Vocabulary()[k]
    ensures forall k | 0 <= k < |Vocabulary()| :: NoSepBefore(Vocabulary()[k], " + ")
  {
    forall k | 0 <= k < |Vocabulary()|
      ensures '+' !in Vocabulary()[k]
      ensures NoSepBefore(Vocabulary()[k], " + ")
    {
      NoSepBeforeFromChar(Vocabulary()[k], " + ");
    }
  }
}
