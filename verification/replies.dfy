/** The `{success, errorMessage}` shape of every "loud" reply, with the
    error conditions the services distinguish and the exact text each one
    puts in `errorMessage`. */
module Replies {

  /** The four creator-only channel operations; each has its own wording. */
  datatype CreatorAction = EditChannel | RemoveChannel | AddMember | RemoveMember

  /** The three self-only account operations; each has its own wording. */
  datatype SelfAction = UpdateProfile | DeleteAccount | ChangeAccount

  datatype Failure =
    | InvalidToken
    | BadCredentials
    | Deactivated
    | UsernameTaken
    | ChannelNotFound
    | NoAccess
    | NotCreator(creatorAction: CreatorAction)
    | UserNotFound
    | NotSelf(selfAction: SelfAction)
    | MessageNotFound
    | NotAuthor

  /** The `errorMessage` string a failure is reported with. */
  function Text(f: Failure): string {
    match f
    case InvalidToken => "認証エラー: 無効なトークン"
    case BadCredentials => "ユーザー名またはパスワードが正しくありません"
    case Deactivated => "このユーザーは無効化されています"
    case UsernameTaken => "このユーザー名は既に使用されています"
    case ChannelNotFound => "チャンネルが見つかりません"
    case NoAccess => "このチャンネルへのアクセス権がありません"
    case NotCreator(EditChannel) => "チャンネルの作成者のみが更新できます"
    case NotCreator(RemoveChannel) => "チャンネルの作成者のみが削除できます"
    case NotCreator(AddMember) => "チャンネルの作成者のみがメンバーを追加できます"
    case NotCreator(RemoveMember) => "チャンネルの作成者のみがメンバーを削除できます"
    case UserNotFound => "ユーザーが見つかりません"
    case NotSelf(UpdateProfile) => "自分のプロフィールのみ更新できます"
    case NotSelf(DeleteAccount) => "自分のアカウントのみ削除できます"
    case NotSelf(ChangeAccount) => "自分のアカウントのみ変更できます"
    case MessageNotFound => "メッセージが見つかりません"
    case NotAuthor => "自分のメッセージのみ削除できます"
  }

  /** A loud reply: either the payload of a successful call or the failure. */
  datatype Reply<+T> = Ok(value: T) | Err(failure: Failure) {

    /** The wire `success` flag. */
    function Success(): bool {
      Ok?
    }

    /** The wire `errorMessage`: empty on success. */
    function ErrorMessage(): string {
      if Ok? then "" else Text(failure)
    }
  }

  /** Every failure reaches the caller with a non-empty message, and a
      successful reply with an empty one, so `errorMessage` alone tells the
      two apart. */
  lemma ErrorMessageSignalsFailure<T>(r: Reply<T>)
    ensures r.Success() <==> r.ErrorMessage() == ""
  {
    if r.Err? {
      match r.failure
      case NotCreator(a) => assert |Text(r.failure)| > 0;
      case NotSelf(a) => assert |Text(r.failure)| > 0;
      case _ => assert |Text(r.failure)| > 0;
    }
  }
}
