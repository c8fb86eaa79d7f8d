/** The bounded command history of the PRTS terminal on the not-found
    page (src/components/prts-terminal.tsx): what one submitted line does
    to the history. The pick among the unknown-command replies, made with
    `Math.random` in the component, is a parameter. */
module Terminal {
  import opened Wrappers
  import opened Strings
  import opened Entries

  datatype Kind = Info | Error | Warning | Success | System

  /** One reply line. */
  datatype Line = Line(kind: Kind, text: string)

  /** What an entry's `responses` holds: a list of reply lines, or, when
      the table lookup lands on a member every JavaScript object inherits
      (a function, or the prototype object itself), something that is not
      a list at all. */
  datatype Responses = Lines(lines: seq<Line>) | NotAList

  datatype TerminalEntry = TerminalEntry(command: string, responses: Responses)

  const MaxHistory: nat := 8

  /** `EASTER_EGG_COMMANDS`, the known commands and their replies. */
  const EasterEggCommands: seq<Entry<seq<Line>>> := [
    ("help", [
      Line(Info, "利用可能なコマンド:"),
      Line(System, "  help        このメッセージを表示"),
      Line(System, "  status      システムステータスを確認"),
      Line(System, "  recruit     公開求人を実行"),
      Line(System, "  sanity      理性値を確認"),
      Line(System, "  secret      ..."),
      Line(Warning, "  ※コマンドは小文字しか対応されていません")
    ]),
    ("status", [
      Line(Info, "PRTS v4.0.4 — Rhodes Island Pharmaceutical"),
      Line(Success, "基地稼働率: 99.7%  |  源石濃度: 正常"),
      Line(Warning, "未読メッセージ: 1件 (from: アーミヤ)"),
      Line(System, "現在地: 不明な座標 (404 sector)")
    ]),
    ("amiya", [
      Line(Success, ">> アーミヤからのメッセージ <<"),
      Line(Info, "「ドクター、お帰りなさい！"),
      Line(Info, "  ここは...どこでしょう？"),
      Line(Info, "  大丈夫です、私がロドスまで案内します！」")
    ]),
    ("doctor", [
      Line(System, "ドクター認証情報を照会中..."),
      Line(Success, "ID: Dr.████████  |  クリアランス: S"),
      Line(Warning, "WARNING: 記憶封印 — 一部データが欠損しています"),
      Line(Info, "石棺からの覚醒日: ████/██/██")
    ]),
    ("ドクター", [
      Line(System, "ドクター認証情報を照会中..."),
      Line(Success, "ID: Dr.████████  |  クリアランス: S"),
      Line(Warning, "WARNING: 記憶封印 — 一部データが欠損しています"),
      Line(Info, "石棺からの覚醒日: ████/██/██")
    ]),
    ("sanity", [
      Line(Warning, "現在の理性: ██ / 180"),
      Line(Error, "理性が不足しています"),
      Line(Info, "回復まで: 404分"),
      Line(System, "hint: 源石を砕けば即回復")
    ]),
    ("理性", [
      Line(Warning, "現在の理性: ██ / 135"),
      Line(Error, "理性が不足しています"),
      Line(Info, "回復まで: 404分 (なんと...)"),
      Line(System, "hint: 源石を砕けば即回復")
    ]),
    ("recruit", [
      Line(System, "公開求人を開始..."),
      Line(System, "タグスキャン中... [████████░░] 80%"),
      Line(Error, "ERROR: 求人票が次元の狭間に消えました"),
      Line(Warning, "ロボットタグしか出ない日々にさよならを"),
      Line(Info, "正規ルートはこちら → /")
    ]),
    ("公開求人", [
      Line(System, "公開求人を開始..."),
      Line(System, "タグスキャン中... [████████░░] 80%"),
      Line(Error, "ERROR: 求人票が次元の狭間に消えました"),
      Line(Warning, "ロボットタグしか出ない日々にさよならを"),
      Line(Info, "正規ルートはこちら → /")
    ]),
    ("secret", [
      Line(System, "機密データベースにアクセス中..."),
      Line(Warning, "[CLASSIFIED] ████████████████"),
      Line(Info, "...バベルの記録を探しているのですか？"),
      Line(Error, "アクセス拒否: クリアランスが不足しています"),
      Line(System, "ケルシー医師に許可を取ってください")
    ]),
    ("kal'tsit", [
      Line(Error, ">> ケルシーからの通信 <<"),
      Line(Info, "「ドクター。"),
      Line(Info, "  君はここにいる場合ではない。"),
      Line(Info, "  Mon3trに迎えを寄越そう。」"),
      Line(Warning, "[Mon3trの気配を感じる...]")
    ]),
    ("ケルシー", [
      Line(Error, ">> ケルシーからの通信 <<"),
      Line(Info, "「ドクター。"),
      Line(Info, "  君はここにいる場合ではない。"),
      Line(Info, "  Mon3trに迎えを寄越そう。」"),
      Line(Warning, "[Mon3trの気配を感じる...]")
    ]),
    ("mon3tr", [
      Line(Error, ">> Mon3trからの通信 <<"),
      Line(Info, "「ドクター。こんなところで何をしているんだ？"),
      Line(Info, "  早く帰ろう！ここは危険なんだ。"),
      Line(Info, "  ドクターとアーミヤは私が守る。約束したんだ。")
    ]),
    ("w", [
      Line(Warning, ">> 不明な発信源 <<"),
      Line(Info, "「あはは！ここに迷い込んだの？"),
      Line(Info, "  爆弾でも置いていってあげましょうか？"),
      Line(Info, "  ...冗談よ。たぶんね。」"),
      Line(Error, "⚠ 爆発物が検知されました (嘘)")
    ]),
    ("originium", [
      Line(System, "源石データベースを参照中..."),
      Line(Info, "源石 (Originium): テラの万物に影響を与える鉱物"),
      Line(Warning, "感染リスク: ████  |  エネルギー密度: 極高"),
      Line(Info, "ロドス・アイランドの動力源にして、災いの根源"),
      Line(Error, "注意: 素手での接触は厳禁です")
    ]),
    ("源石", [
      Line(System, "源石データベースを参照中..."),
      Line(Info, "源石 (Originium): テラの万物に影響を与える鉱物"),
      Line(Warning, "感染リスク: ████  |  エネルギー密度: 極高"),
      Line(Info, "ロドス・アイランドの動力源にして、災いの根源"),
      Line(Error, "注意: 素手での接触は厳禁です")
    ]),
    ("0011", [
      Line(System, "認証コード受理... ロドスアイランド正規コード確認"),
      Line(Success, "「たとえ闇の中でも、前に進み続けよう」"),
      Line(Info, "— Rhodes Island, for the silent majority —")
    ]),
    ("rhodes", [
      Line(Success, "◆ ロドス・アイランド製薬 ◆"),
      Line(Info, "感染者の救済と源石災害の研究を行う移動都市"),
      Line(System, "乗員数: ███名  |  現在座標: 不明"),
      Line(Info, "「すべての感染者に、明日の未来を」")
    ]),
    ("exia", [
      Line(Success, ">> エクシアからのメッセージ <<"),
      Line(Info, "「やっほー！ドクター！"),
      Line(Info, "  404？そんなの私の銃で撃ち抜いちゃうよ！"),
      Line(Info, "  ...あ、アップルパイ食べる？」")
    ]),
    ("エクシア", [
      Line(Success, ">> エクシアからのメッセージ <<"),
      Line(Info, "「やっほー！ドクター！"),
      Line(Info, "  404？そんなの私の銃で撃ち抜いちゃうよ！"),
      Line(Info, "  ...あ、アップルパイ食べる？」")
    ]),
    ("texas", [
      Line(Info, ">> テキサスからのメッセージ <<"),
      Line(Info, "「...迷ったのか。」"),
      Line(Info, "「エクシアが向こうで待ってる。さっさと戻るぞ。」"),
      Line(System, "[テキサスは興味なさそうにポッキーを差し出した]")
    ]),
    ("テキサス", [
      Line(Info, ">> テキサスからのメッセージ <<"),
      Line(Info, "「...迷ったのか。」"),
      Line(Info, "「エクシアが向こうで待ってる。さっさと戻るぞ。」"),
      Line(System, "[テキサスは興味なさそうにポッキーを差し出した]")
    ]),
    ("clear", [])
  ]

  /** `UNKNOWN_RESPONSES`, the replies to a command not in the table. */
  const UnknownResponses: seq<seq<Line>> := [
    [
      Line(Error, "コマンドが認識できません"),
      Line(System, "'help' で利用可能なコマンドを確認してください")
    ],
    [
      Line(Error, "不明なコマンドです"),
      Line(Warning, "PRTSのデータベースに該当する情報がありません")
    ],
    [
      Line(Error, "解析失敗"),
      Line(System, "...ドクター、もう少しわかりやすくお願いします")
    ]
  ]

  /** The members of `Object.prototype` whose names are entirely lower
      case, so that a lower-cased command can reach them. */
  const InheritedLowerCaseMembers: seq<string> := ["constructor", "__proto__"]

  /** `EASTER_EGG_COMMANDS[cmd]` as JavaScript evaluates it: an own entry
      of the table, else an inherited member, else `undefined`. */
  function LookupAsWritten(cmd: string): Option<Responses> {
    match Get(EasterEggCommands, cmd)
    case Some(lines) => Some(Lines(lines))
    case None => if cmd in InheritedLowerCaseMembers then Some(NotAList) else None
  }

  /** The lookup the table is meant for: own entries only. */
  function LookupOwn(cmd: string): Option<Responses> {
    match Get(EasterEggCommands, cmd)
    case Some(lines) => Some(Lines(lines))
    case None => None
  }

  /** `arr.slice(-n)` for n > 0: the last `n` elements, or all of them. */
  function Last<T>(xs: seq<T>, n: nat): (r: seq<T>)
    ensures |r| == if |xs| <= n then |xs| else n
    ensures r == xs[|xs| - |r|..]
  {
    if |xs| <= n then xs else xs[|xs| - n..]
  }

  /** The command a line stands for: trimmed and lower-cased. */
  function Command(input: string): string {
    ToLower(Trim(input))
  }

  /** `handleSubmit`: the history after submitting `input`, looking
      commands up with `lookup` (`LookupAsWritten` for the component as it
      stands, `LookupOwn` for the intended table); `choice` picks the
      unknown-command reply. An empty line changes nothing and "clear"
      empties the history. */
  function SubmitWith(lookup: string -> Option<Responses>, history: seq<TerminalEntry>, input: string, choice: nat): (r: seq<TerminalEntry>)
    requires choice < |UnknownResponses|
    ensures |Command(input)| == 0 ==> r == history
    ensures Command(input) == "clear" ==> r == []
    ensures |Command(input)| > 0 ==> |r| <= MaxHistory
  {
    var cmd := Command(input);
    if |cmd| == 0 then history
    else if cmd == "clear" then []
    else
      var responses := lookup(cmd).GetOr(Lines(UnknownResponses[choice]));
      Last(history, MaxHistory - 1) + [TerminalEntry(Trim(input), responses)]
  }

  /** Any other line appends one entry after the last seven earlier ones,
      in their order; the entry records the trimmed line in its original
      case, with the table's reply when the lookup finds one and one of the
      unknown-command replies otherwise. */
  lemma SubmitAppends(lookup: string -> Option<Responses>, history: seq<TerminalEntry>, input: string, choice: nat)
    requires choice < |UnknownResponses|
    requires |Command(input)| > 0 && Command(input) != "clear"
    ensures var r := SubmitWith(lookup, history, input, choice);
      && |r| == (if |history| < MaxHistory then |history| else MaxHistory - 1) + 1
      && r[..|r| - 1] == history[|history| - (|r| - 1)..]
      && r[|r| - 1].command == Trim(input)
      && (lookup(Command(input)).Some? ==> r[|r| - 1].responses == lookup(Command(input)).value)
      && (lookup(Command(input)).None? ==> r[|r| - 1].responses == Lines(UnknownResponses[choice]))
  {
    var r := SubmitWith(lookup, history, input, choice);
    assert r[..|r| - 1] == Last(history, MaxHistory - 1);
  }

  /** Every line submitted in turn, from `history`. */
  function SubmitAll(lookup: string -> Option<Responses>, history: seq<TerminalEntry>, inputs: seq<string>, choices: seq<nat>): seq<TerminalEntry>
    requires |choices| == |inputs|
    requires forall i | 0 <= i < |choices| :: choices[i] < |UnknownResponses|
    decreases |inputs|
  {
    if |inputs| == 0 then history
    else SubmitAll(lookup, SubmitWith(lookup, history, inputs[0], choices[0]), inputs[1..], choices[1..])
  }

  /** Starting within the bound, the history never holds more than
      `MAX_HISTORY` entries, whatever is typed. */
  lemma {:induction false} HistoryStaysBounded(lookup: string -> Option<Responses>, history: seq<TerminalEntry>, inputs: seq<string>, choices: seq<nat>)
    requires |choices| == |inputs|
    requires forall i | 0 <= i < |choices| :: choices[i] < |UnknownResponses|
    requires |history| <= MaxHistory
    ensures |SubmitAll(lookup, history, inputs, choices)| <= MaxHistory
    decreases |inputs|
  {
    if |inputs| > 0 {
      HistoryStaysBounded(lookup, SubmitWith(lookup, history, inputs[0], choices[0]), inputs[1..], choices[1..]);
    }
  }

  /** No command of the table is longer than nine characters or has an
      underscore. */
  lemma CommandShape()
    ensures forall k | k in Keys(EasterEggCommands) :: |k| <= 9 && '_' !in k
  {
  }

  /** A command the table does not have: too long, or with an underscore. */
  lemma NotACommand(cmd: string)
    requires |cmd| > 9 || '_' in cmd
    ensures Get(EasterEggCommands, cmd) == None
  {
    CommandShape();
  }

  /** Whatever the lookup finds for the command is what the new entry
      holds. */
  lemma SubmitFound(lookup: string -> Option<Responses>, history: seq<TerminalEntry>, input: string, choice: nat, found: Responses)
    requires choice < |UnknownResponses|
    requires |Command(input)| > 0 && Command(input) != "clear"
    requires lookup(Command(input)) == Some(found)
    ensures var r := SubmitWith(lookup, history, input, choice);
      |r| > 0 && r[|r| - 1].command == Trim(input) && r[|r| - 1].responses == found
  {
    SubmitAppends(lookup, history, input, choice);
  }

  /** The inherited members are not commands of the table: the lookup as
      written finds something that is not a list, the own lookup nothing. */
  lemma InheritedLookup(cmd: string)
    requires cmd in InheritedLowerCaseMembers
    ensures |cmd| > 0 && cmd != "clear"
    ensures LookupAsWritten(cmd) == Some(NotAList)
    ensures LookupOwn(cmd) == None
  {
    assert cmd == "constructor" || cmd == "__proto__";
    if cmd == "constructor" {
      assert |cmd| == 11;
    } else {
      assert cmd[0] == '_' && |cmd| == 9;
    }
    NotACommand(cmd);
  }

  /** As written, a line that reads "constructor" or "__proto__" in any
      case stores an entry whose `responses` is not a list, which the
      history rendering then maps over. */
  lemma InheritedMemberIsNotAList(history: seq<TerminalEntry>, input: string, choice: nat)
    requires choice < |UnknownResponses|
    requires Command(input) in InheritedLowerCaseMembers
    ensures var r := SubmitWith(LookupAsWritten, history, input, choice);
      |r| > 0 && r[|r| - 1].command == Trim(input) && r[|r| - 1].responses == NotAList
  {
    InheritedLookup(Command(input));
    SubmitFound(LookupAsWritten, history, input, choice, NotAList);
  }

  /** Looking up own entries only, every entry the history holds is a list
      of reply lines: a table entry, or an unknown-command reply. */
  lemma SubmitOwnKeepsLists(history: seq<TerminalEntry>, input: string, choice: nat)
    requires choice < |UnknownResponses|
    requires forall e | e in history :: e.responses.Lines?
    ensures forall e | e in SubmitWith(LookupOwn, history, input, choice) :: e.responses.Lines?
  {
    var cmd := Command(input);
    if |cmd| > 0 && cmd != "clear" {
      SubmitAppends(LookupOwn, history, input, choice);
      var r := SubmitWith(LookupOwn, history, input, choice);
      assert r == r[..|r| - 1] + [r[|r| - 1]];
    }
  }

  /** Looking up own entries only, "constructor" and "__proto__" are
      unknown commands like any other. */
  lemma InheritedMemberIsUnknown(history: seq<TerminalEntry>, input: string, choice: nat)
    requires choice < |UnknownResponses|
    requires Command(input) in InheritedLowerCaseMembers
    ensures var r := SubmitWith(LookupOwn, history, input, choice);
      |r| > 0 && r[|r| - 1].responses == Lines(UnknownResponses[choice])
  {
    InheritedLookup(Command(input));
    SubmitAppends(LookupOwn, history, input, choice);
  }

  /** The two lookups agree on every command except the inherited
      members. */
  lemma LookupsAgree(cmd: string)
    requires cmd !in InheritedLowerCaseMembers
    ensures LookupAsWritten(cmd) == LookupOwn(cmd)
  {
  }
}
