/** The conversation states the bot's handlers return, in their declaration order, and `ConversationHandler.END`. */
module States {
  datatype State =
    | MainMenu | ScheduleMenu | HomeworkMenu | PersonalHwMenu
    | GetName | GetEmail
    | ConfirmDeleteSchedule
    | GetHwText | ChooseHwSubject | ChooseHwDateOption
    | EditHwChooseSubject | EditHwGetDate | EditHwMenu | EditHwReplaceText
    | GetFileOnly | ChooseSubjectForFile | ChooseDateForFile
    | GroupHwMenu
    | GetGroupHwText | ChooseGroupHwSubject | ChooseGroupHwDateOption
    | GetGroupFileOnly | ChooseSubjectForGroupFile | ChooseDateForGroupFile
    | EditGroupHwChooseSubject | EditGroupHwGetDate | EditGroupHwMenu
    | EditGroupHwReplaceText | AddTextbookChooseSubject | GetTextbookFile
    | ChooseSummarySubject | ChooseSummaryFile | GetPageNumbers
    | ConfirmSummaryGeneration
    | End
}
